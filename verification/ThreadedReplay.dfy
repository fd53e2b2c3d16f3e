/** Two-thread replay against single-threaded replay of the same bytes. */
module ThreadedReplay {
  import opened Machine
  import opened Wire
  import opened BookSpec
  import opened Itch
  import opened BookBuilders
  import opened Seqs
  import T = TwoThreads
  import L = TwoThreadsLaws

  /** What crosses the queue: a tag and a union. A skipped or corrupt frame travels as a
      bare tag over a zeroed union (None). */
  datatype Envelope = Envelope(kind: u8, body: Option<Message>)

  /** `QueueProducer`: packages one handler call. */
  function Packed(c: Call): Envelope {
    match c
    case On(m) => Envelope(TagOf(m), Some(m))
    case OnOther(kind, _) => Envelope(kind, None)
  }

  const ZERO := Header(0, 0)

  /** The member of a known type read out of a zeroed union: all its fields are zero. */
  function Zeroed(kind: u8): Message
    requires WireSize(kind).Some?
  {
    if kind == A || kind == F then AddOrder(ZERO, 0, Side(0), 0, Zeros(9), 0)
    else if kind == E then OrderExecuted(ZERO, 0, 0, 0)
    else if kind == C then OrderExecutedPrice(ZERO, 0, 0, 0, false, 0)
    else if kind == X then OrderCancel(ZERO, 0, 0)
    else if kind == D then OrderDelete(ZERO, 0)
    else OrderReplace(ZERO, 0, 0, 0, 0)
  }

  /** `dispatch_to_book`: chooses the union member by the tag alone. */
  function Unpacked(e: Envelope): Call {
    if WireSize(e.kind).None? then OnOther(e.kind, 0)
    else if e.body.Some? && TagOf(e.body.value) == TagOf(Zeroed(e.kind)) then On(e.body.value)
    else On(Zeroed(e.kind))
  }

  /** A known type whose frame had the wrong length. */
  predicate Mislabelled(c: Call) {
    c.OnOther? && WireSize(c.kind).Some?
  }

  /** The queue drops the length of a skipped frame, which no builder looks at. */
  function WithoutLength(c: Call): Call {
    match c
    case On(_) => c
    case OnOther(kind, _) => OnOther(kind, 0)
  }

  lemma AcrossTheQueue(c: Call)
    ensures Unpacked(Packed(c)) == WithoutLength(c) <==> !Mislabelled(c)
  {
  }

  lemma LengthIsIgnored<B>(k: BookKind<B>, b: Build<B>, c: Call)
    requires |b.counts| == 256
    ensures Handle(k, b, WithoutLength(c)) == Handle(k, b, c)
  {
  }

  /** Crossing the queue leaves a call's effect on every builder of every kind of book
      unchanged if and only if the call is not a mislabelled frame: such a frame is
      dispatched as a real message to locate 0, where it makes a book. */
  lemma QueueIsTransparentIff<B>(k: BookKind<B>, c: Call)
    ensures (forall b: Build<B> | |b.counts| == 256 :: Handle(k, b, Unpacked(Packed(c))) == Handle(k, b, c))
            <==> !Mislabelled(c)
  {
    AcrossTheQueue(c);
    if Mislabelled(c) {
      var b := Fresh<B>();
      assert |Handle(k, b, Unpacked(Packed(c))).slots| == 1;
      assert |Handle(k, b, c).slots| == 0;
      assert Handle(k, b, Unpacked(Packed(c))) != Handle(k, b, c);
    } else {
      forall b: Build<B> | |b.counts| == 256
        ensures Handle(k, b, Unpacked(Packed(c))) == Handle(k, b, c)
      {
        LengthIsIgnored(k, b, c);
      }
    }
  }

  function PackedAll(cs: seq<Call>): (es: seq<Envelope>)
    ensures |es| == |cs|
  {
    seq(|cs|, i requires 0 <= i < |cs| => Packed(cs[i]))
  }

  function UnpackedAll(es: seq<Envelope>): (cs: seq<Call>)
    ensures |cs| == |es|
  {
    seq(|es|, i requires 0 <= i < |es| => Unpacked(es[i]))
  }

  predicate NoneMislabelled(cs: seq<Call>) {
    forall i | 0 <= i < |cs| :: !Mislabelled(cs[i])
  }

  lemma {:induction false} FoldIgnoresLengths<B>(k: BookKind<B>, ds: seq<Call>, cs: seq<Call>)
    requires |ds| == |cs| && forall i | 0 <= i < |cs| :: ds[i] == WithoutLength(cs[i])
    ensures HandleAll(k, Fresh(), ds) == HandleAll(k, Fresh(), cs)
    decreases |cs|
  {
    if cs != [] {
      var n := |cs| - 1;
      FoldIgnoresLengths(k, ds[..n], cs[..n]);
      LengthIsIgnored(k, HandleAll(k, Fresh(), cs[..n]), cs[n]);
    }
  }

  /** The calls replayed from the queue are the calls that went in exactly when none of
      them is mislabelled. */
  lemma QueueKeepsCallsIff(cs: seq<Call>)
    ensures (forall i | 0 <= i < |cs| :: UnpackedAll(PackedAll(cs))[i] == WithoutLength(cs[i])) <==> NoneMislabelled(cs)
  {
    forall i | 0 <= i < |cs|
      ensures UnpackedAll(PackedAll(cs))[i] == WithoutLength(cs[i]) <==> !Mislabelled(cs[i])
    {
      AcrossTheQueue(cs[i]);
    }
  }

  /** A frame of a known type whose length is not the specified one. */
  predicate WrongLength(f: Bytes)
    requires f != []
  {
    WireSize(f[0]).Some? && WireSize(f[0]) != Some(|f|)
  }

  lemma MislabelledIsWrongLength(f: Bytes)
    requires f != []
    ensures Mislabelled(Dispatch(f)) <==> WrongLength(f)
  {
  }

  /** `run_pipeline` over the frames of a buffer: the decoder's calls, packed, are the
      input of the two-thread system. */
  function Pipeline(bits: nat, data: Bytes): T.Config<Envelope> {
    T.Config(bits, PackedAll(Calls(data)))
  }

  /** For every byte stream without frames of wrong length, every capacity, every kind of
      book and every interleaving, stale loads included: once the consumer has left its
      loop, its builder equals that of a single-threaded parse and both frame counts are
      the number of frames parsed. */
  lemma ThreadedEqualsSingle<B>(k: BookKind<B>, bits: nat, data: Bytes,
                                s0: T.Sys<Envelope>, acts: seq<T.Action>, s: T.Sys<Envelope>)
    requires forall i | 0 <= i < |Frames(data)| :: !WrongLength(Frames(data)[i])
    requires bits <= 64 && T.Start(Pipeline(bits, data), s0)
    requires (T.InvAtStart(Pipeline(bits, data), s0); L.Reaches(Pipeline(bits, data), s0, acts, s))
    requires s.c == T.ConsumerEnd
    ensures HandleAll(k, Fresh(), UnpackedAll(s.out)) == HandleAll(k, Fresh(), Calls(data))
    ensures |s.out| == s.pFrames == |Frames(data)|
  {
    L.NothingIsLost(Pipeline(bits, data), s0, acts, s);
    forall i | 0 <= i < |Calls(data)|
      ensures !Mislabelled(Calls(data)[i])
    {
      MislabelledIsWrongLength(Frames(data)[i]);
    }
    QueueKeepsCallsIff(Calls(data));
    FoldIgnoresLengths(k, UnpackedAll(s.out), Calls(data));
  }

  // ---------------------------------------------------------------- the exact hypothesis

  /** Crossing the queue leaves this call's effect on this builder unchanged. */
  ghost predicate StepAlike<B>(k: BookKind<B>, b: Build<B>, c: Call)
    requires |b.counts| == 256
  {
    Handle(k, b, Unpacked(Packed(c))) == Handle(k, b, c)
  }

  /** Replay from the queue and direct replay hold the same builder after every call. */
  ghost predicate AlwaysAlike<B>(k: BookKind<B>, cs: seq<Call>) {
    forall n | 0 <= n <= |cs| :: Alike(k, cs[..n])
  }

  ghost predicate Alike<B>(k: BookKind<B>, cs: seq<Call>) {
    HandleAll(k, Fresh(), UnpackedAll(PackedAll(cs))) == HandleAll(k, Fresh(), cs)
  }

  lemma AlikeStep<B>(k: BookKind<B>, cs: seq<Call>)
    requires cs != [] && Alike(k, cs[..|cs| - 1])
    ensures Alike(k, cs) <==> StepAlike(k, HandleAll(k, Fresh(), cs[..|cs| - 1]), cs[|cs| - 1])
  {
    var n := |cs| - 1;
    assert UnpackedAll(PackedAll(cs))[..n] == UnpackedAll(PackedAll(cs[..n]));
  }

  /** A call after these is unchanged by the queue on the builder it meets. */
  ghost predicate AlikeAfter<B>(k: BookKind<B>, before: seq<Call>, c: Call) {
    StepAlike(k, HandleAll(k, Fresh(), before), c)
  }

  ghost predicate EveryStepAlike<B>(k: BookKind<B>, cs: seq<Call>) {
    forall i | 0 <= i < |cs| :: AlikeAfter(k, cs[..i], cs[i])
  }

  lemma AlwaysAlikeSnoc<B>(k: BookKind<B>, cs: seq<Call>)
    requires cs != []
    ensures AlwaysAlike(k, cs) <==> AlwaysAlike(k, cs[..|cs| - 1]) && Alike(k, cs)
  {
    PrefixesSnoc((c: seq<Call>) => Alike(k, c), cs);
  }

  lemma EveryStepAlikeSnoc<B>(k: BookKind<B>, cs: seq<Call>)
    requires cs != []
    ensures EveryStepAlike(k, cs) <==> EveryStepAlike(k, cs[..|cs| - 1]) && AlikeAfter(k, cs[..|cs| - 1], cs[|cs| - 1])
  {
    PositionsSnoc((before: seq<Call>, c: Call) => AlikeAfter(k, before, c), cs);
  }

  /** The replays stay alike exactly as long as every call, on the builder it meets, is
      unchanged by the queue. */
  lemma {:induction false} AlwaysAlikeIff<B>(k: BookKind<B>, cs: seq<Call>)
    ensures AlwaysAlike(k, cs) <==> EveryStepAlike(k, cs)
    decreases |cs|
  {
    if cs == [] {
      assert cs[..0] == [];
    } else {
      var n := |cs| - 1;
      AlwaysAlikeIff(k, cs[..n]);
      AlwaysAlikeSnoc(k, cs);
      EveryStepAlikeSnoc(k, cs);
      if AlwaysAlike(k, cs[..n]) {
        assert cs[..n][..n] == cs[..n];
        AlikeStep(k, cs);
      }
    }
  }

  /** The consumer's builder is the one a direct replay has after as many frames. */
  ghost predicate Follows<B>(k: BookKind<B>, data: Bytes, s: T.Sys<Envelope>) {
    && |s.out| <= |Calls(data)|
    && HandleAll(k, Fresh(), UnpackedAll(s.out)) == HandleAll(k, Fresh(), Calls(data)[..|s.out|])
  }

  lemma FollowsIffAlike<B>(k: BookKind<B>, bits: nat, data: Bytes, s0: T.Sys<Envelope>, s: T.Sys<Envelope>)
    requires bits <= 64 && T.Start(Pipeline(bits, data), s0) && L.Reachable(Pipeline(bits, data), s0, s)
    ensures |s.out| <= |Calls(data)| && (Follows(k, data, s) <==> Alike(k, Calls(data)[..|s.out|]))
  {
    var g := Pipeline(bits, data);
    var acts :| L.Reaches(g, s0, acts, s);
    L.RingIsFifo(g, s0, acts, s);
    assert s.out == PackedAll(Calls(data)[..|s.out|]);
  }

  ghost predicate AlwaysFollows<B>(k: BookKind<B>, bits: nat, data: Bytes, s0: T.Sys<Envelope>) {
    forall s :: L.Reachable(Pipeline(bits, data), s0, s) ==> Follows(k, data, s)
  }

  lemma AlikeFollows<B>(k: BookKind<B>, bits: nat, data: Bytes, s0: T.Sys<Envelope>)
    requires bits <= 64 && T.Start(Pipeline(bits, data), s0) && AlwaysAlike(k, Calls(data))
    ensures AlwaysFollows(k, bits, data, s0)
  {
    forall s | L.Reachable(Pipeline(bits, data), s0, s)
      ensures Follows(k, data, s)
    {
      FollowsIffAlike(k, bits, data, s0, s);
    }
  }

  lemma UnlikeIsReached<B>(k: BookKind<B>, bits: nat, data: Bytes, s0: T.Sys<Envelope>)
    requires 1 <= bits <= 64 && T.Start(Pipeline(bits, data), s0) && !AlwaysAlike(k, Calls(data))
    ensures !AlwaysFollows(k, bits, data, s0)
  {
    var n :| 0 <= n <= |Calls(data)| && !Alike(k, Calls(data)[..n]);
    var u := L.EveryCountIsReached(Pipeline(bits, data), s0, n);
    FollowsIffAlike(k, bits, data, s0, u);
  }

  /** For every byte stream, every capacity of at least 2 and every kind of book: in all
      reachable states of the two threads, stale loads included, the consumer's builder is
      that of a direct replay of as many frames, if and only if every call is unchanged by
      the queue on the builder it meets. */
  lemma ThreadedFollowsSingleIff<B>(k: BookKind<B>, bits: nat, data: Bytes, s0: T.Sys<Envelope>)
    requires 1 <= bits <= 64 && T.Start(Pipeline(bits, data), s0)
    ensures AlwaysFollows(k, bits, data, s0) <==> EveryStepAlike(k, Calls(data))
  {
    AlwaysAlikeIff(k, Calls(data));
    if AlwaysAlike(k, Calls(data)) {
      AlikeFollows(k, bits, data, s0);
    } else {
      UnlikeIsReached(k, bits, data, s0);
    }
  }

  /** The hypothesis is needed: one 'D' frame of length 1 makes the threaded replay build
      a book for locate 0 and count an unknown reference; the direct replay does neither. */
  lemma OneWrongLengthFrameDiffers<B>(k: BookKind<B>)
    requires !k.apply(k.make(0), Remove(0)).1
    ensures var cs := Calls([0, 1, D]);
            var threaded, direct := HandleAll(k, Fresh<B>(), UnpackedAll(PackedAll(cs))), HandleAll(k, Fresh<B>(), cs);
            && |threaded.slots| == 1 && threaded.unknownRefs == 1
            && |direct.slots| == 0 && direct.unknownRefs == 0
            && threaded.counts == direct.counts
  {
    var data: Bytes := [0, 1, D];
    ShiftedBytes(data + [0], 0);
    assert (data + [0])[0..2] == data[0..2];
    assert FirstFrame(data) == Some(3);
    OneFrame(data, 3);
    assert data[2..3] == [D];
    NoFrame(data[3..]);
    var cs := Calls(data);
    assert cs == [OnOther(D, 1)];
    var ds := UnpackedAll(PackedAll(cs));
    assert ds == [On(OrderDelete(ZERO, 0))];
    OneCall(k, cs[0]);
    OneCall(k, ds[0]);
    assert WithBook<B>(k, [], 0, 0) == [Some(k.make(0))];
  }

  lemma OneCall<B>(k: BookKind<B>, c: Call)
    ensures HandleAll(k, Fresh<B>(), [c]) == Handle(k, Fresh<B>(), c)
  {
    assert [c][..0] == [];
  }
}

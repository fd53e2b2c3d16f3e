/** Safety, bounds and progress of the receiver over every run. */
module ReceiverLaws {
  import opened Machine
  import opened Wire
  import opened Itch
  import opened Encode
  import M = Mold
  import opened ReceiverSpec

  // ---------------------------------------------------------------- in order, exactly once

  /** A packet starting at k carries whole frames of messages k, k+1, ... of the session. */
  ghost predicate Honest(msgs: seq<Bytes>, k: u64, p: Packet) {
    var f := Frames(p.payload);
    f == [] || (1 <= k && k - 1 + |f| <= |msgs| && f == msgs[k - 1..k - 1 + |f|])
  }

  ghost predicate Messages(msgs: seq<Bytes>) {
    forall i | 0 <= i < |msgs| :: msgs[i] != []
  }

  /** The packets an honest sender of these messages may put on the wire. */
  ghost function HonestTo(msgs: seq<Bytes>): (u64, Packet) -> bool {
    (k: u64, p: Packet) => Honest(msgs, k, p)
  }

  /** What has been dispatched is exactly the messages before nextSeq. */
  ghost predicate InOrder(msgs: seq<Bytes>, s: Rx) {
    && Messages(msgs)
    && 1 <= s.nextSeq <= |msgs| + 1
    && s.log == Dispatched(msgs[..s.nextSeq - 1])
    && forall k | k in s.pending :: Honest(msgs, k, s.pending[k])
  }

  lemma ConsumeInOrder(msgs: seq<Bytes>, s: Rx)
    requires InOrder(msgs, s) && s.nextSeq in s.pending
    ensures InOrder(msgs, Consume(s))
  {
    var f := Frames(s.pending[s.nextSeq].payload);
    var n := s.nextSeq - 1;
    assert Honest(msgs, s.nextSeq, s.pending[s.nextSeq]);
    if f == [] {
      assert s.log + Dispatched(f) == s.log;
    } else {
      assert msgs[..n + |f|] == msgs[..n] + f;
      DispatchedConcat(msgs[..n], f);
    }
  }

  lemma BufferInOrder(msgs: seq<Bytes>, s: Rx, k: u64, p: Packet)
    requires InOrder(msgs, s) && Honest(msgs, k, p)
    ensures InOrder(msgs, Buffer(s, k, p))
  {
  }

  /** Under any loss, duplication, reordering, overlap, heartbeats and foreign sessions:
      after every run the handler has seen messages 1 to nextSeq-1, each once, in order. */
  lemma DeliversInOrderExactlyOnce(msgs: seq<Bytes>, me: M.SessionId, arrivals: seq<Arrival>)
    requires Messages(msgs)
    requires forall i | 0 <= i < |arrivals| :: Admitted(me, HonestTo(msgs), arrivals[i])
    ensures var s := Run(START, me, arrivals);
            1 <= s.nextSeq <= |msgs| + 1 && s.log == Dispatched(msgs[..s.nextSeq - 1])
  {
    assert InOrderFor(msgs)(Run(START, me, arrivals)) by {
      StartInOrder(msgs);
      InOrderIsKept(msgs);
      KeptByRun(InOrderFor(msgs), HonestTo(msgs), START, me, arrivals);
    }
  }

  lemma StartInOrder(msgs: seq<Bytes>)
    requires Messages(msgs)
    ensures InOrderFor(msgs)(START)
  {
    assert msgs[..0] == [];
  }

  ghost function InOrderFor(msgs: seq<Bytes>): Rx -> bool {
    (s: Rx) => InOrder(msgs, s)
  }

  lemma InOrderIsKept(msgs: seq<Bytes>)
    ensures Kept(InOrderFor(msgs), HonestTo(msgs))
  {
    var inv := InOrderFor(msgs);
    assert KeptByBuffering(inv, HonestTo(msgs)) by {
      forall s: Rx, k: u64, p: Packet | inv(s) && HonestTo(msgs)(k, p)
        ensures inv(Buffer(s, k, p))
      {
        BufferInOrder(msgs, s, k, p);
      }
    }
    assert KeptByConsuming(inv) by {
      forall s: Rx | inv(s) && s.nextSeq in s.pending && Earliest(s.pending, s.nextSeq)
        ensures inv(Consume(s))
      {
        ConsumeInOrder(msgs, s);
      }
    }
    assert KeptByAsking(inv) && KeptByEnding(inv);
  }

  /** With no assumption on the packets: the frames counted by the polls are the calls
      made, and nextSeq has moved by exactly that many. */
  lemma PollsAddUp(me: M.SessionId, arrivals: seq<Arrival>)
    ensures ReturnedInAll(START, me, arrivals) == Run(START, me, arrivals).nextSeq - 1
    ensures |Run(START, me, arrivals).log| == Run(START, me, arrivals).nextSeq - 1
  {
    var inv := (s: Rx) => |s.log| == s.nextSeq - 1;
    var admits := (k: u64, p: Packet) => true;
    assert Kept(inv, admits);
    KeptByRun(inv, admits, START, me, arrivals);
    ReturnsTelescope(START, me, arrivals);
  }

  lemma {:induction false} ReturnsTelescope(s: Rx, me: M.SessionId, arrivals: seq<Arrival>)
    ensures ReturnedInAll(s, me, arrivals) == |Run(s, me, arrivals).log| - |s.log|
    decreases |arrivals|
  {
    if arrivals != [] {
      ReturnsTelescope(Poll(s, me, arrivals[0]), me, arrivals[1..]);
    }
  }

  // ---------------------------------------------------------------- claimed counts

  /** The header claims as many messages as the payload parses to. */
  ghost predicate Truthful(p: Packet) {
    p.count == |Frames(p.payload)|
  }

  ghost function TruthfulOnes(): (u64, Packet) -> bool {
    (k: u64, p: Packet) => Truthful(p)
  }

  ghost predicate NoneMisclaimed(s: Rx) {
    s.mismatches == 0 && forall k | k in s.pending :: Truthful(s.pending[k])
  }

  lemma ConsumeTruthful(s: Rx)
    requires NoneMisclaimed(s) && s.nextSeq in s.pending
    ensures NoneMisclaimed(Consume(s))
  {
    assert Truthful(s.pending[s.nextSeq]);
  }

  /** A mismatch is never reported against packets whose headers tell the truth. */
  lemma NoFalseMismatch(me: M.SessionId, arrivals: seq<Arrival>)
    requires forall i | 0 <= i < |arrivals| :: Admitted(me, TruthfulOnes(), arrivals[i])
    ensures Run(START, me, arrivals).mismatches == 0
  {
    var inv := (s: Rx) => NoneMisclaimed(s);
    assert KeptByBuffering(inv, TruthfulOnes());
    assert KeptByConsuming(inv) by {
      forall s: Rx | inv(s) && s.nextSeq in s.pending && Earliest(s.pending, s.nextSeq)
        ensures inv(Consume(s))
      {
        ConsumeTruthful(s);
      }
    }
    assert KeptByAsking(inv) && KeptByEnding(inv);
    KeptByRun(inv, TruthfulOnes(), START, me, arrivals);
  }

  // ---------------------------------------------------------------- bounds

  /** Names at least one and at most 0xFFFE numbers, none of them buffered. */
  ghost predicate Proper(r: Request) {
    && 1 <= r.count <= 0xFFFE
    && r.seqNo + r.count <= TWO_64
    && forall q: u64 | r.seqNo <= q < r.seqNo + r.count :: q !in r.held
  }

  /** A request starts at the number waited for and ends right before the first buffered
      one, or at the protocol's limit. */
  lemma GapRequestIsProper(s: Rx)
    requires s.pending != map[] && First(s.pending) > s.nextSeq
    ensures var r := GapRequest(s);
            Proper(r) && r.seqNo == s.nextSeq && (r.count == 0xFFFE || Earliest(s.pending, r.seqNo + r.count))
  {
  }

  lemma {:induction false} RepliesAskNothing(s: Rx, me: M.SessionId, rs: seq<Recv>)
    ensures TakeReplies(s, me, rs).requests == s.requests
    decreases |rs|
  {
    if rs != [] {
      var b := rs[0].bytes;
      if |b| < M.HEADER_LEN || !Usable(s.nextSeq, me, M.Decode(b)) {
        RepliesAskNothing(s, me, rs[1..]);
      } else {
        var h := M.Decode(b);
        RepliesAskNothing(Buffer(s, h.seqNo, Packet(h.count, b[M.HEADER_LEN..])), me, rs[1..]);
      }
    }
  }

  lemma {:induction false} GapsAskAtMost(s: Rx, me: M.SessionId, n: nat, replies: seq<seq<Recv>>)
    ensures |s.requests| <= |ResolveGaps(s, me, n, replies).requests| <= |s.requests| + n
    decreases n
  {
    if s.pending != map[] && First(s.pending) > s.nextSeq && n > 0 {
      var asked := Asked(s);
      RepliesAskNothing(asked, me, Head(replies));
      GapsAskAtMost(TakeReplies(asked, me, Head(replies)), me, n - 1, Tail(replies));
    }
  }

  lemma {:induction false} DrainAsksNothing(s: Rx)
    ensures Drain(s).requests == s.requests
    decreases |s.pending|
  {
    if s.pending != map[] && First(s.pending) == s.nextSeq {
      assert (s.pending - {s.nextSeq}).Keys == s.pending.Keys - {s.nextSeq};
      DrainAsksNothing(Consume(s));
    }
  }

  /** One poll sends at most five requests, however many replies come back. */
  lemma PollAsksAtMostFive(s: Rx, me: M.SessionId, a: Arrival)
    ensures |s.requests| <= |Poll(s, me, a).requests| <= |s.requests| + 5
  {
    if |a.bytes| >= M.HEADER_LEN {
      var h := M.Decode(a.bytes);
      if h.session == me && h.count != M.END_OF_SESSION && h.count != M.HEARTBEAT && h.seqNo >= s.nextSeq {
        var b := Buffer(s, h.seqNo, Packet(h.count, a.bytes[M.HEADER_LEN..]));
        GapsAskAtMost(b, me, MAX_GAP_FILL_ATTEMPTS, a.replies);
        DrainAsksNothing(ResolveGaps(b, me, MAX_GAP_FILL_ATTEMPTS, a.replies));
      }
    }
  }

  ghost predicate Bounded(s: Rx) {
    |s.pending| <= 256 && forall i | 0 <= i < |s.requests| :: Proper(s.requests[i])
  }

  lemma BufferIsBounded(s: Rx, k: u64, p: Packet)
    requires Bounded(s)
    ensures Bounded(Buffer(s, k, p))
  {
    var after := s.pending[k := p];
    if k in s.pending {
      assert after.Keys == s.pending.Keys;
    } else {
      assert after.Keys == s.pending.Keys + {k};
    }
  }

  lemma ConsumeIsBounded(s: Rx)
    requires Bounded(s) && s.nextSeq in s.pending
    ensures Bounded(Consume(s))
  {
    assert (s.pending - {s.nextSeq}).Keys == s.pending.Keys - {s.nextSeq};
  }

  /** Over every run, of honest packets or not: at most 256 packets are ever buffered,
      and every request sent was proper. */
  lemma AlwaysBounded(me: M.SessionId, arrivals: seq<Arrival>)
    ensures Bounded(Run(START, me, arrivals))
  {
    var inv, admits := (s: Rx) => Bounded(s), (k: u64, p: Packet) => true;
    assert KeptByBuffering(inv, admits) by {
      forall s: Rx, k: u64, p: Packet | inv(s) && admits(k, p)
        ensures inv(Buffer(s, k, p))
      {
        BufferIsBounded(s, k, p);
      }
    }
    assert KeptByConsuming(inv) by {
      forall s: Rx | inv(s) && s.nextSeq in s.pending && Earliest(s.pending, s.nextSeq)
        ensures inv(Consume(s))
      {
        ConsumeIsBounded(s);
      }
    }
    assert KeptByAsking(inv) && KeptByEnding(inv);
    KeptByRun(inv, admits, START, me, arrivals);
  }

  // ---------------------------------------------------------------- one frame per packet

  ghost predicate Single(p: Packet) {
    |Frames(p.payload)| <= 1
  }

  ghost function Singles(): (u64, Packet) -> bool {
    (k: u64, p: Packet) => Single(p)
  }

  ghost predicate Ahead(s: Rx) {
    forall k | k in s.pending :: k >= s.nextSeq && Single(s.pending[k])
  }

  lemma ConsumeStaysAhead(s: Rx)
    requires Ahead(s) && s.nextSeq in s.pending
    ensures Ahead(Consume(s))
  {
    assert Single(s.pending[s.nextSeq]);
  }

  lemma {:induction false} DrainStops(s: Rx)
    ensures Drain(s).nextSeq !in Drain(s).pending || exists k | k in Drain(s).pending :: k < Drain(s).nextSeq
    decreases |s.pending|
  {
    if s.pending != map[] && First(s.pending) == s.nextSeq {
      assert (s.pending - {s.nextSeq}).Keys == s.pending.Keys - {s.nextSeq};
      DrainStops(Consume(s));
    }
  }

  /** If no payload parses to more than one frame, a clean buffer stays clean: after a
      packet is accepted every pending number exceeds nextSeq. */
  lemma AcceptStaysAhead(s: Rx, me: M.SessionId, seqNo: u64, p: Packet, replies: seq<seq<Recv>>)
    requires Ahead(s) && Single(p) && seqNo >= s.nextSeq
    requires forall i | 0 <= i < |replies| :: AdmittedReplies(me, Singles(), replies[i])
    ensures var s' := Accept(s, me, seqNo, p, replies);
            Ahead(s') && forall k | k in s'.pending :: k > s'.nextSeq
  {
    var b := Buffer(s, seqNo, p);
    BufferStaysAhead(s, seqNo, p);
    GapsStayAhead(b, me, MAX_GAP_FILL_ATTEMPTS, replies);
    DrainedIsBeyond(ResolveGaps(b, me, MAX_GAP_FILL_ATTEMPTS, replies));
  }

  lemma BufferStaysAhead(s: Rx, k: u64, p: Packet)
    requires Ahead(s) && Single(p) && k >= s.nextSeq
    ensures Ahead(Buffer(s, k, p))
  {
  }

  lemma DrainedIsBeyond(s: Rx)
    requires Ahead(s)
    ensures Ahead(Drain(s)) && forall k | k in Drain(s).pending :: k > Drain(s).nextSeq
  {
    DrainStaysAhead(s);
    DrainStops(s);
  }

  lemma {:induction false} RepliesStayAhead(s: Rx, me: M.SessionId, rs: seq<Recv>)
    requires Ahead(s) && AdmittedReplies(me, Singles(), rs)
    ensures Ahead(TakeReplies(s, me, rs)) && TakeReplies(s, me, rs).nextSeq == s.nextSeq
    decreases |rs|
  {
    if rs != [] {
      var b := rs[0].bytes;
      assert AdmittedDatagram(me, Singles(), b);
      if |b| < M.HEADER_LEN || !Usable(s.nextSeq, me, M.Decode(b)) {
        RepliesStayAhead(s, me, rs[1..]);
      } else {
        var h := M.Decode(b);
        RepliesStayAhead(Buffer(s, h.seqNo, Packet(h.count, b[M.HEADER_LEN..])), me, rs[1..]);
      }
    }
  }

  lemma {:induction false} GapsStayAhead(s: Rx, me: M.SessionId, n: nat, replies: seq<seq<Recv>>)
    requires Ahead(s)
    requires forall i | 0 <= i < |replies| :: AdmittedReplies(me, Singles(), replies[i])
    ensures Ahead(ResolveGaps(s, me, n, replies))
    decreases n
  {
    if s.pending != map[] && First(s.pending) > s.nextSeq && n > 0 {
      var asked := Asked(s);
      RepliesStayAhead(asked, me, Head(replies));
      GapsStayAhead(TakeReplies(asked, me, Head(replies)), me, n - 1, Tail(replies));
    }
  }

  lemma {:induction false} DrainStaysAhead(s: Rx)
    requires Ahead(s)
    ensures Ahead(Drain(s))
    decreases |s.pending|
  {
    if s.pending != map[] && First(s.pending) == s.nextSeq {
      assert (s.pending - {s.nextSeq}).Keys == s.pending.Keys - {s.nextSeq};
      ConsumeStaysAhead(s);
      DrainStaysAhead(Consume(s));
    }
  }

  /** A number whose whole frame is buffered. */
  ghost predicate Ready(p: Pending, q: nat) {
    q in p && |Frames(p[q].payload)| == 1
  }

  /** Draining a clean buffer moves nextSeq to the least number not ready. */
  lemma {:induction false} DrainReachesLeastMissing(s: Rx)
    requires Ahead(s)
    ensures LeastMissing(s.pending, s.nextSeq, Drain(s).nextSeq)
    decreases |s.pending|
  {
    if s.pending != map[] && First(s.pending) == s.nextSeq {
      var c := Consume(s);
      assert c.pending.Keys == s.pending.Keys - {s.nextSeq};
      ConsumeStaysAhead(s);
      DrainReachesLeastMissing(c);
      StepOverOne(s);
    } else if s.pending != map[] {
      assert First(s.pending) > s.nextSeq;
    }
  }

  ghost predicate LeastMissing(p: Pending, from: nat, to: nat) {
    && from <= to && !Ready(p, to)
    && forall q: nat | from <= q < to :: Ready(p, q)
  }

  lemma StepOverOne(s: Rx)
    requires Ahead(s) && s.nextSeq in s.pending
    requires LeastMissing(Consume(s).pending, Consume(s).nextSeq, Drain(Consume(s)).nextSeq)
    ensures LeastMissing(s.pending, s.nextSeq, Drain(Consume(s)).nextSeq)
  {
    var c := Consume(s);
    assert Single(s.pending[s.nextSeq]);
    if c.nextSeq == s.nextSeq {
      assert c.nextSeq !in c.pending;
      assert Drain(c) == c;
    } else {
      forall q: nat | s.nextSeq < q
        ensures Ready(s.pending, q) <==> Ready(c.pending, q)
      {
      }
    }
  }

  /** Accepting the very frame that is waited for, with room to hold it: nextSeq moves to
      the least number missing from the buffered whole frames, itself included. */
  lemma WaitedForFrameMovesOn(s: Rx, me: M.SessionId, p: Packet, replies: seq<seq<Recv>>)
    requires Ahead(s) && s.nextSeq < TWO_64 && |Frames(p.payload)| == 1
    requires |s.pending| < MAX_PENDING || s.nextSeq in s.pending
    ensures var held := s.pending[s.nextSeq := p];
            var s' := Accept(s, me, s.nextSeq, p, replies);
            s'.nextSeq > s.nextSeq && LeastMissing(held, s.nextSeq, s'.nextSeq)
  {
    var b := Buffer(s, s.nextSeq, p);
    assert Earliest(b.pending, s.nextSeq);
    assert First(b.pending) == s.nextSeq;
    assert ResolveGaps(b, me, MAX_GAP_FILL_ATTEMPTS, replies) == b;
    DrainReachesLeastMissing(b);
    assert Ready(b.pending, s.nextSeq);
  }

  // ---------------------------------------------------------------- where it gets stuck

  /** A buffered number already passed by, as an overlapping packet can leave behind. */
  ghost predicate Stale(s: Rx) {
    exists k :: k in s.pending && k < s.nextSeq
  }

  ghost predicate Crowded(s: Rx) {
    |s.pending| >= MAX_PENDING && s.nextSeq !in s.pending
  }

  lemma StaleAcceptDoesNothing(s: Rx, me: M.SessionId, seqNo: u64, p: Packet, replies: seq<seq<Recv>>)
    requires Stale(s)
    ensures var s' := Accept(s, me, seqNo, p, replies);
            Stale(s') && s'.nextSeq == s.nextSeq && s'.log == s.log && s'.requests == s.requests
  {
    if seqNo >= s.nextSeq {
      var b := Buffer(s, seqNo, p);
      var k :| k in s.pending && k < s.nextSeq;
      assert k in b.pending;
      assert First(b.pending) <= k;
      assert ResolveGaps(b, me, MAX_GAP_FILL_ATTEMPTS, replies) == b;
      assert Drain(b) == b;
    }
  }

  /** One stale number stops delivery for good, whatever arrives afterwards, and no gap
      is ever asked for again. */
  lemma {:induction false} StaleIsForever(s: Rx, me: M.SessionId, arrivals: seq<Arrival>)
    requires Stale(s)
    ensures var s' := Run(s, me, arrivals);
            Stale(s') && s'.nextSeq == s.nextSeq && s'.log == s.log && s'.requests == s.requests
    decreases |arrivals|
  {
    if arrivals != [] {
      var a := arrivals[0];
      if |a.bytes| >= M.HEADER_LEN {
        var h := M.Decode(a.bytes);
        StaleAcceptDoesNothing(s, me, h.seqNo, Packet(h.count, a.bytes[M.HEADER_LEN..]), a.replies);
      }
      StaleIsForever(Poll(s, me, a), me, arrivals[1..]);
    }
  }

  lemma {:induction false} CrowdedReplies(s: Rx, me: M.SessionId, rs: seq<Recv>)
    requires Crowded(s)
    ensures var s' := TakeReplies(s, me, rs);
            Crowded(s') && s'.nextSeq == s.nextSeq && s'.log == s.log
    decreases |rs|
  {
    if rs != [] {
      var b := rs[0].bytes;
      if |b| < M.HEADER_LEN || !Usable(s.nextSeq, me, M.Decode(b)) {
        CrowdedReplies(s, me, rs[1..]);
      } else {
        var h := M.Decode(b);
        var p := Packet(h.count, b[M.HEADER_LEN..]);
        CrowdedBuffer(s, h.seqNo, p);
        CrowdedReplies(Buffer(s, h.seqNo, p), me, rs[1..]);
      }
    }
  }

  lemma CrowdedBuffer(s: Rx, k: u64, p: Packet)
    requires Crowded(s)
    ensures Crowded(Buffer(s, k, p))
  {
    if k in s.pending {
      assert s.pending[k := p].Keys == s.pending.Keys;
    }
  }

  lemma {:induction false} CrowdedGaps(s: Rx, me: M.SessionId, n: nat, replies: seq<seq<Recv>>)
    requires Crowded(s)
    ensures var s' := ResolveGaps(s, me, n, replies);
            Crowded(s') && s'.nextSeq == s.nextSeq && s'.log == s.log
    decreases n
  {
    if s.pending != map[] && First(s.pending) > s.nextSeq && n > 0 {
      var asked := Asked(s);
      CrowdedReplies(asked, me, Head(replies));
      CrowdedGaps(TakeReplies(asked, me, Head(replies)), me, n - 1, Tail(replies));
    }
  }

  lemma CrowdedAccept(s: Rx, me: M.SessionId, seqNo: u64, p: Packet, replies: seq<seq<Recv>>)
    requires Crowded(s)
    ensures var s' := Accept(s, me, seqNo, p, replies);
            Crowded(s') && s'.nextSeq == s.nextSeq && s'.log == s.log
  {
    if seqNo >= s.nextSeq {
      var b := Buffer(s, seqNo, p);
      CrowdedBuffer(s, seqNo, p);
      CrowdedGaps(b, me, MAX_GAP_FILL_ATTEMPTS, replies);
    }
  }

  lemma CrowdedAfterBuffer(s: Rx, me: M.SessionId, seqNo: u64, p: Packet, replies: seq<seq<Recv>>)
    requires seqNo >= s.nextSeq && Crowded(Buffer(s, seqNo, p))
    ensures Crowded(Accept(s, me, seqNo, p, replies)) && Accept(s, me, seqNo, p, replies).nextSeq == s.nextSeq
  {
    CrowdedGaps(Buffer(s, seqNo, p), me, MAX_GAP_FILL_ATTEMPTS, replies);
  }

  /** With 256 packets buffered above a gap the missing packet is itself refused, from
      either channel, forever: no room can be freed without it. */
  lemma {:induction false} CrowdedIsForever(s: Rx, me: M.SessionId, arrivals: seq<Arrival>)
    requires Crowded(s)
    ensures var s' := Run(s, me, arrivals);
            Crowded(s') && s'.nextSeq == s.nextSeq && s'.log == s.log
    decreases |arrivals|
  {
    if arrivals != [] {
      var a := arrivals[0];
      if |a.bytes| >= M.HEADER_LEN {
        var h := M.Decode(a.bytes);
        CrowdedAccept(s, me, h.seqNo, Packet(h.count, a.bytes[M.HEADER_LEN..]), a.replies);
      }
      CrowdedIsForever(Poll(s, me, a), me, arrivals[1..]);
    }
  }

  lemma {:induction false} DrainNeverGoesBack(s: Rx)
    ensures Drain(s).nextSeq >= s.nextSeq
    decreases |s.pending|
  {
    if s.pending != map[] && First(s.pending) == s.nextSeq {
      assert (s.pending - {s.nextSeq}).Keys == s.pending.Keys - {s.nextSeq};
      DrainNeverGoesBack(Consume(s));
    }
  }

  /** A packet that starts at nextSeq and holds at least one frame moves the receiver on if
      and only if no stale number is buffered and the buffer is not crowded. */
  lemma MovesOnIff(s: Rx, me: M.SessionId, p: Packet, replies: seq<seq<Recv>>)
    requires s.nextSeq < TWO_64 && Frames(p.payload) != []
    ensures Accept(s, me, s.nextSeq, p, replies).nextSeq > s.nextSeq <==> !Stale(s) && !Crowded(s)
  {
    if Stale(s) {
      StaleAcceptDoesNothing(s, me, s.nextSeq, p, replies);
    } else if Crowded(s) {
      CrowdedAccept(s, me, s.nextSeq, p, replies);
    } else {
      var b := Buffer(s, s.nextSeq, p);
      assert Earliest(b.pending, s.nextSeq);
      assert First(b.pending) == s.nextSeq;
      assert ResolveGaps(b, me, MAX_GAP_FILL_ATTEMPTS, replies) == b;
      DrainNeverGoesBack(Consume(b));
    }
  }

  // ---------------------------------------------------------------- reaching the stuck states

  /** Over every run of packets that parse to at most one frame each, no stale number is
      ever left behind. */
  lemma {:induction false} SinglesLeaveNothingStale(s: Rx, me: M.SessionId, arrivals: seq<Arrival>)
    requires Ahead(s) && s.nextSeq !in s.pending
    requires forall i | 0 <= i < |arrivals| :: Admitted(me, Singles(), arrivals[i])
    ensures var s' := Run(s, me, arrivals);
            Ahead(s') && !Stale(s') && forall k | k in s'.pending :: k > s'.nextSeq
    decreases |arrivals|
  {
    if arrivals != [] {
      var a := arrivals[0];
      PollStaysAhead(s, me, a);
      SinglesLeaveNothingStale(Poll(s, me, a), me, arrivals[1..]);
    }
  }

  lemma PollStaysAhead(s: Rx, me: M.SessionId, a: Arrival)
    requires Ahead(s) && s.nextSeq !in s.pending && Admitted(me, Singles(), a)
    ensures Ahead(Poll(s, me, a)) && Poll(s, me, a).nextSeq !in Poll(s, me, a).pending
  {
    if |a.bytes| >= M.HEADER_LEN {
      var h := M.Decode(a.bytes);
      if h.session == me && h.count != M.END_OF_SESSION && h.count != M.HEARTBEAT && h.seqNo >= s.nextSeq {
        assert AdmittedDatagram(me, Singles(), a.bytes);
        AcceptStaysAhead(s, me, h.seqNo, Packet(h.count, a.bytes[M.HEADER_LEN..]), a.replies);
      }
    }
  }

  function DataPacket(me: M.SessionId, seqNo: u64, count: u16, payload: Bytes): Bytes {
    M.HeaderBytes(M.Header(me, seqNo, count)) + payload
  }

  lemma PollOfDataPacket(s: Rx, me: M.SessionId, seqNo: u64, count: u16, payload: Bytes, replies: seq<seq<Recv>>)
    requires count != M.HEARTBEAT && count != M.END_OF_SESSION
    ensures Poll(s, me, Arrival(DataPacket(me, seqNo, count, payload), replies))
         == Accept(s, me, seqNo, Packet(count, payload), replies)
  {
    M.HeaderRoundTrip(M.Header(me, seqNo, count), payload);
  }

  lemma {:induction false} SilenceFillsNoGap(s: Rx, me: M.SessionId, n: nat)
    ensures var s' := ResolveGaps(s, me, n, []);
            s'.pending == s.pending && s'.nextSeq == s.nextSeq && s'.log == s.log
    decreases n
  {
    if s.pending != map[] && First(s.pending) > s.nextSeq && n > 0 {
      SilenceFillsNoGap(Asked(s), me, n - 1);
    }
  }

  /** An honest sender can strand the receiver: message 2 arrives alone and early, then
      messages 1 and 2 together. Both packets are honest, both messages are delivered,
      and nothing that arrives afterwards ever will be. */
  lemma OverlapStrands(me: M.SessionId, m1: Bytes, m2: Bytes, later: seq<Arrival>)
    requires 0 < |m1| < 0x1_0000 && 0 < |m2| < 0x1_0000
    ensures var early, both := Framed(m2), Framed(m1) + Framed(m2);
            && Honest([m1, m2], 2, Packet(1, early)) && Honest([m1, m2], 1, Packet(2, both))
            && var first, second := Arrival(DataPacket(me, 2, 1, early), []), Arrival(DataPacket(me, 1, 2, both), []);
               Run(START, me, [first, second] + later).log == Dispatched([m1, m2])
  {
    var early, both := Framed(m2), Framed(m1) + Framed(m2);
    OverlapIsHonest(m1, m2);
    var a1, a2 := Arrival(DataPacket(me, 2, 1, early), []), Arrival(DataPacket(me, 1, 2, both), []);
    OverlapIsStale(me, m1, m2);
    RunOfTwo(START, me, a1, a2, later);
    StaleIsForever(Poll(Poll(START, me, a1), me, a2), me, later);
  }

  lemma OverlapFrames(m1: Bytes, m2: Bytes)
    requires 0 < |m1| < 0x1_0000 && 0 < |m2| < 0x1_0000
    ensures Frames(Framed(m2)) == [m2] && Frames(Framed(m1) + Framed(m2)) == [m1, m2]
  {
    assert Framed(m2) + [] == Framed(m2);
    FramedWalks(m2, []);
    FramedWalks(m1, Framed(m2));
  }

  lemma OverlapIsHonest(m1: Bytes, m2: Bytes)
    requires 0 < |m1| < 0x1_0000 && 0 < |m2| < 0x1_0000
    ensures Honest([m1, m2], 2, Packet(1, Framed(m2)))
    ensures Honest([m1, m2], 1, Packet(2, Framed(m1) + Framed(m2)))
  {
    OverlapFrames(m1, m2);
    assert [m1, m2][1..2] == [m2] && [m1, m2][0..2] == [m1, m2];
  }

  lemma OverlapIsStale(me: M.SessionId, m1: Bytes, m2: Bytes)
    requires 0 < |m1| < 0x1_0000 && 0 < |m2| < 0x1_0000
    ensures var early, both := Framed(m2), Framed(m1) + Framed(m2);
            var s1 := Poll(START, me, Arrival(DataPacket(me, 2, 1, early), []));
            var s2 := Poll(s1, me, Arrival(DataPacket(me, 1, 2, both), []));
            Stale(s2) && s2.log == Dispatched([m1, m2])
  {
    var early, both := Framed(m2), Framed(m1) + Framed(m2);
    var s1 := Poll(START, me, Arrival(DataPacket(me, 2, 1, early), []));
    OverlapFrames(m1, m2);
    EarlyIsHeld(me, early);
    PollOfDataPacket(START, me, 2, 1, early, []);
    PollOfDataPacket(s1, me, 1, 2, both, []);
    BothAreTaken(s1, me, early, both, m1, m2);
  }

  lemma RunOfTwo(s: Rx, me: M.SessionId, a1: Arrival, a2: Arrival, later: seq<Arrival>)
    ensures Run(s, me, [a1, a2] + later) == Run(Poll(Poll(s, me, a1), me, a2), me, later)
  {
    RunStep(s, me, a1, [a2] + later);
    RunStep(Poll(s, me, a1), me, a2, later);
    assert [a1] + ([a2] + later) == [a1, a2] + later;
  }

  lemma RunStep(s: Rx, me: M.SessionId, a: Arrival, later: seq<Arrival>)
    ensures Run(s, me, [a] + later) == Run(Poll(s, me, a), me, later)
  {
    assert ([a] + later)[1..] == later;
  }

  lemma EarlyIsHeld(me: M.SessionId, early: Bytes)
    ensures var s := Accept(START, me, 2, Packet(1, early), []);
            s.nextSeq == 1 && s.log == [] && s.pending == map[2 := Packet(1, early)]
  {
    var b := Buffer(START, 2, Packet(1, early));
    SilenceFillsNoGap(b, me, MAX_GAP_FILL_ATTEMPTS);
    assert First(b.pending) == 2;
  }

  lemma BothAreTaken(s: Rx, me: M.SessionId, early: Bytes, both: Bytes, m1: Bytes, m2: Bytes)
    requires s.nextSeq == 1 && s.log == [] && s.pending == map[2 := Packet(1, early)]
    requires m1 != [] && m2 != [] && Frames(both) == [m1, m2]
    ensures var s' := Accept(s, me, 1, Packet(2, both), []);
            Stale(s') && s'.log == Dispatched([m1, m2])
  {
    var b := Buffer(s, 1, Packet(2, both));
    assert |s.pending| == 1;
    FirstIs(b.pending, 1);
    var c := Consume(b);
    assert c.pending == map[2 := Packet(1, early)];
    FirstIs(c.pending, 2);
    assert Drain(b) == c;
    assert 2 in c.pending && 2 < c.nextSeq;
  }

  lemma {:induction false} RunSnoc(s: Rx, me: M.SessionId, arrivals: seq<Arrival>, a: Arrival)
    ensures Run(s, me, arrivals + [a]) == Poll(Run(s, me, arrivals), me, a)
    decreases |arrivals|
  {
    if arrivals == [] {
      RunStep(s, me, a, []);
      assert [] + [a] == [a] + [];
    } else {
      var s1 := Poll(s, me, arrivals[0]);
      RunSnoc(s1, me, arrivals[1..], a);
      RunStep(s, me, arrivals[0], arrivals[1..] + [a]);
      assert [arrivals[0]] + (arrivals[1..] + [a]) == arrivals + [a];
    }
  }

  lemma {:induction false} RunConcat(s: Rx, me: M.SessionId, a: seq<Arrival>, b: seq<Arrival>)
    ensures Run(s, me, a + b) == Run(Run(s, me, a), me, b)
    decreases |b|
  {
    if b == [] {
      assert a + b == a;
    } else {
      var n := |b| - 1;
      RunConcat(s, me, a, b[..n]);
      RunSnoc(s, me, a + b[..n], b[n]);
      RunSnoc(Run(s, me, a), me, b[..n], b[n]);
      assert a + b[..n] + [b[n]] == a + b;
      assert b[..n] + [b[n]] == b;
    }
  }

  /** Packets 2 to n+1, one message each, with nothing coming back on the request channel. */
  function EarlyPackets(me: M.SessionId, payloads: seq<Bytes>, n: nat): seq<Arrival>
    requires n <= |payloads| && n + 1 < TWO_64
  {
    if n == 0 then []
    else EarlyPackets(me, payloads, n - 1) + [Arrival(DataPacket(me, n + 1, 1, payloads[n - 1]), [])]
  }

  ghost predicate Hoarding(s: Rx, n: nat) {
    s.nextSeq == 1 && s.log == [] && |s.pending| == n && forall k | k in s.pending :: 2 <= k <= n + 1
  }

  lemma HoardOneMore(s: Rx, me: M.SessionId, n: nat, payload: Bytes)
    requires Hoarding(s, n) && n < MAX_PENDING
    ensures Hoarding(Accept(s, me, n + 2, Packet(1, payload), []), n + 1)
  {
    var b := Buffer(s, n + 2, Packet(1, payload));
    assert n + 2 !in s.pending;
    assert b.pending.Keys == s.pending.Keys + {n + 2};
    SilenceFillsNoGap(b, me, MAX_GAP_FILL_ATTEMPTS);
    HoardDrainsNothing(ResolveGaps(b, me, MAX_GAP_FILL_ATTEMPTS, []), n + 1);
  }

  lemma HoardDrainsNothing(s: Rx, n: nat)
    requires Hoarding(s, n)
    ensures Drain(s) == s
  {
  }

  lemma {:induction false} EarlyPacketsHoard(me: M.SessionId, payloads: seq<Bytes>, n: nat)
    requires n <= |payloads| && n <= MAX_PENDING
    ensures Hoarding(Run(START, me, EarlyPackets(me, payloads, n)), n)
    decreases n
  {
    if n > 0 {
      var s := Run(START, me, EarlyPackets(me, payloads, n - 1));
      EarlyPacketsHoard(me, payloads, n - 1);
      RunSnoc(START, me, EarlyPackets(me, payloads, n - 1), Arrival(DataPacket(me, n + 1, 1, payloads[n - 1]), []));
      PollOfDataPacket(s, me, n + 1, 1, payloads[n - 1], []);
      HoardOneMore(s, me, n - 1, payloads[n - 1]);
    }
  }

  /** Lose message 1 while the next 256 arrive, and nothing is ever delivered: message 1
      is refused from either channel however often it is sent again. */
  lemma FullBufferStrands(me: M.SessionId, payloads: seq<Bytes>, later: seq<Arrival>)
    requires |payloads| >= 256
    ensures Run(START, me, EarlyPackets(me, payloads, 256) + later).log == []
  {
    var early := EarlyPackets(me, payloads, MAX_PENDING);
    EarlyPacketsHoard(me, payloads, MAX_PENDING);
    RunConcat(START, me, early, later);
    CrowdedIsForever(Run(START, me, early), me, later);
  }
}

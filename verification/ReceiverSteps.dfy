/** The receiver's single steps and what its counters count, in plain numbers. */
module ReceiverSteps {
  import opened Machine
  import opened Wire
  import opened Itch
  import M = Mold
  import opened ReceiverSpec
  import opened ReceiverLaws

  // ---------------------------------------------------------------- buffering

  /** A new number is refused, and counted, exactly when 256 others are held; anything else
      is held under its number, in place of what was held there before. */
  lemma BufferedOrRefused(s: Rx, k: u64, p: Packet)
    ensures var s' := Buffer(s, k, p);
            if |s.pending| >= 256 && k !in s.pending then s' == s.(dropped := s.dropped + 1)
            else s'.pending[k] == p && s' == s.(pending := s.pending[k := p])
  {
  }

  /** Unanswered, a packet refused from the data channel adds exactly one to the count of
      refusals, and any other packet of the session nothing. */
  lemma RefusalIsCounted(s: Rx, me: M.SessionId, k: u64, p: Packet)
    requires k >= s.nextSeq && p.count != 0 && p.count != 0xFFFF
    ensures Poll(s, me, Arrival(DataPacket(me, k, p.count, p.payload), [])).dropped
         == s.dropped + (if |s.pending| >= 256 && k !in s.pending then 1 else 0)
  {
    var b := Buffer(s, k, p);
    PollOfDataPacket(s, me, k, p.count, p.payload, []);
    SilenceDropsNothing(b, me, MAX_GAP_FILL_ATTEMPTS);
    DrainDropsNothing(ResolveGaps(b, me, MAX_GAP_FILL_ATTEMPTS, []));
  }

  lemma {:induction false} SilenceDropsNothing(s: Rx, me: M.SessionId, n: nat)
    ensures ResolveGaps(s, me, n, []).dropped == s.dropped
    decreases n
  {
    if s.pending != map[] && First(s.pending) > s.nextSeq && n > 0 {
      SilenceDropsNothing(Asked(s), me, n - 1);
    }
  }

  lemma {:induction false} DrainDropsNothing(s: Rx)
    ensures Drain(s).dropped == s.dropped
    decreases |s.pending|
  {
    if s.pending != map[] && First(s.pending) == s.nextSeq {
      assert (s.pending - {s.nextSeq}).Keys == s.pending.Keys - {s.nextSeq};
      DrainDropsNothing(Consume(s));
    }
  }

  // ---------------------------------------------------------------- draining

  /** One packet handed to the parser: it is no longer held, its frames are dispatched, the
      number waited for moves by their number, whatever count the packet stated. */
  lemma HandedOver(s: Rx)
    requires s.nextSeq in s.pending
    ensures var p, s' := s.pending[s.nextSeq], Consume(s);
            && s'.pending == s.pending - {s.nextSeq} && s'.nextSeq == s.nextSeq + |Frames(p.payload)|
            && s'.log == s.log + Dispatched(Frames(p.payload))
            && s'.mismatches == s.mismatches + (if |Frames(p.payload)| == p.count then 0 else 1)
            && s'.dropped == s.dropped && s'.ended == s.ended && s'.requests == s.requests
  {
  }

  /** The packets a drain hands over whose count is not their number of frames. */
  function Miscounted(s: Rx): set<u64> {
    set k | k in s.pending && k !in Drain(s).pending && s.pending[k].count != |Frames(s.pending[k].payload)|
  }

  lemma {:induction false} DrainOnlyTakes(s: Rx)
    ensures forall k | k in Drain(s).pending :: k in s.pending && Drain(s).pending[k] == s.pending[k]
    decreases |s.pending|
  {
    if s.pending != map[] && First(s.pending) == s.nextSeq {
      assert (s.pending - {s.nextSeq}).Keys == s.pending.Keys - {s.nextSeq};
      DrainOnlyTakes(Consume(s));
    }
  }

  lemma OneMoreMiscounted(s: Rx)
    requires s.pending != map[] && First(s.pending) == s.nextSeq
    ensures var k, p := s.nextSeq, s.pending[s.nextSeq];
            && k !in Miscounted(Consume(s))
            && Miscounted(s) == Miscounted(Consume(s)) + (if p.count != |Frames(p.payload)| then {k} else {})
  {
    var k, c := s.nextSeq, Consume(s);
    DrainOnlyTakes(c);
    assert Drain(s) == Drain(c);
    assert k !in Drain(c).pending;
    assert forall j | j in s.pending && j != k :: j in c.pending && c.pending[j] == s.pending[j];
  }

  /** A drain counts one mismatch for each packet it hands over that misstates its count. */
  lemma {:induction false} MismatchesAreCounted(s: Rx)
    ensures Drain(s).mismatches == s.mismatches + |Miscounted(s)|
    decreases |s.pending|
  {
    if s.pending != map[] && First(s.pending) == s.nextSeq {
      assert (s.pending - {s.nextSeq}).Keys == s.pending.Keys - {s.nextSeq};
      MismatchesAreCounted(Consume(s));
      OneMoreMiscounted(s);
    } else {
      assert Miscounted(s) == {};
    }
  }

  // ---------------------------------------------------------------- asking

  /** The same request n times over. */
  function Times(r: Request, n: nat): (rs: seq<Request>)
    ensures |rs| == n
  {
    seq(n, _ => r)
  }

  lemma {:induction false} SilenceIsAskedAgain(s: Rx, me: M.SessionId, n: nat)
    requires s.pending != map[] && First(s.pending) > s.nextSeq
    ensures ResolveGaps(s, me, n, []) == s.(requests := s.requests + Times(GapRequest(s), n))
    decreases n
  {
    var r := GapRequest(s);
    if n == 0 {
      assert s.requests + Times(r, 0) == s.requests;
    } else {
      SilenceIsAskedAgain(Asked(s), me, n - 1);
      assert s.requests + [r] + Times(r, n - 1) == s.requests + Times(r, n);
    }
  }

  /** A gap nobody answers is asked about exactly five times in one poll, each time for the
      numbers from the one waited for up to the first one held, 65,534 at most. */
  lemma UnansweredIsAskedFiveTimes(s: Rx, me: M.SessionId, k: u64, p: Packet, first: u64)
    requires !Stale(s) && s.nextSeq !in s.pending && k > s.nextSeq && p.count != 0 && p.count != 0xFFFF
    requires |s.pending| < 256 && Earliest(s.pending[k := p], first)
    ensures var held := s.pending[k := p];
            var missing := if first - s.nextSeq < 65_534 then first - s.nextSeq else 65_534;
            first > s.nextSeq
            && Poll(s, me, Arrival(DataPacket(me, k, p.count, p.payload), []))
               == s.(pending := held, requests := s.requests + Times(Request(s.nextSeq, missing, held.Keys), 5))
  {
    var b := Buffer(s, k, p);
    assert first > s.nextSeq;
    FirstIs(b.pending, first);
    PollOfDataPacket(s, me, k, p.count, p.payload, []);
    SilenceIsAskedAgain(b, me, MAX_GAP_FILL_ATTEMPTS);
    GapStopsDrain(b.(requests := b.requests + Times(GapRequest(b), 5)));
  }

  lemma GapStopsDrain(s: Rx)
    requires s.pending != map[] && First(s.pending) > s.nextSeq
    ensures Drain(s) == s
  {
  }

  // ---------------------------------------------------------------- replies

  /** A reply the attempt passes over: too short with no EAGAIN behind it, of another
      session, a heartbeat, an end of session, or below the number waited for. */
  predicate PassedOver(me: M.SessionId, next: nat, r: Recv) {
    if |r.bytes| < 20 then !r.again
    else
      var h := M.Decode(r.bytes);
      h.session != me || h.count == 0 || h.count == 0xFFFF || h.seqNo < next
  }

  lemma {:induction false} PassedOverIsSkipped(s: Rx, me: M.SessionId, junk: seq<Recv>, rest: seq<Recv>)
    requires forall i | 0 <= i < |junk| :: PassedOver(me, s.nextSeq, junk[i])
    ensures TakeReplies(s, me, junk + rest) == TakeReplies(s, me, rest)
    decreases |junk|
  {
    if junk == [] {
      assert junk + rest == rest;
    } else {
      assert (junk + rest)[1..] == junk[1..] + rest;
      PassedOverIsSkipped(s, me, junk[1..], rest);
    }
  }

  /** EAGAIN ends the attempt, and so does whatever puts the number waited for in front;
      anything else of the session is held and the attempt goes on. */
  lemma ReplyIsTaken(s: Rx, me: M.SessionId, r: Recv, rest: seq<Recv>)
    ensures |r.bytes| < 20 && r.again ==> TakeReplies(s, me, [r] + rest) == s
    ensures |r.bytes| >= 20 && !PassedOver(me, s.nextSeq, r) ==>
              var h := M.Decode(r.bytes);
              var t := Buffer(s, h.seqNo, Packet(h.count, r.bytes[20..]));
              TakeReplies(s, me, [r] + rest)
              == if Earliest(t.pending, s.nextSeq) then t else TakeReplies(t, me, rest)
  {
    assert ([r] + rest)[1..] == rest;
    if |r.bytes| >= 20 && !PassedOver(me, s.nextSeq, r) {
      var h := M.Decode(r.bytes);
      var t := Buffer(s, h.seqNo, Packet(h.count, r.bytes[20..]));
      if Earliest(t.pending, s.nextSeq) {
        FirstIs(t.pending, s.nextSeq);
      }
    }
  }

  /** Each attempt has replies of its own, those that came while it waited. */
  lemma EachAttemptReadsItsOwn(s: Rx, me: M.SessionId, n: nat, first: seq<Recv>, more: seq<seq<Recv>>)
    requires s.pending != map[] && First(s.pending) > s.nextSeq && n > 0
    ensures ResolveGaps(s, me, n, [first] + more) == ResolveGaps(TakeReplies(Asked(s), me, first), me, n - 1, more)
    ensures Asked(s).requests == s.requests + [GapRequest(s)] && Asked(s).pending == s.pending
  {
    assert ([first] + more)[1..] == more;
  }

  // ---------------------------------------------------------------- the end of the session

  /** The last packet of this session: a count of 65,535, whatever number it carries. */
  predicate SaysEnd(me: M.SessionId, a: Arrival) {
    |a.bytes| >= 20 && M.Decode(a.bytes).session == me && M.Decode(a.bytes).count == 65_535
  }

  lemma {:induction false} GapsDoNotEnd(s: Rx, me: M.SessionId, n: nat, replies: seq<seq<Recv>>)
    ensures ResolveGaps(s, me, n, replies).ended == s.ended
    decreases n
  {
    if s.pending != map[] && First(s.pending) > s.nextSeq && n > 0 {
      RepliesDoNotEnd(Asked(s), me, Head(replies));
      GapsDoNotEnd(TakeReplies(Asked(s), me, Head(replies)), me, n - 1, Tail(replies));
    }
  }

  lemma {:induction false} RepliesDoNotEnd(s: Rx, me: M.SessionId, rs: seq<Recv>)
    ensures TakeReplies(s, me, rs).ended == s.ended
    decreases |rs|
  {
    if rs != [] {
      var b := rs[0].bytes;
      RepliesDoNotEnd(s, me, rs[1..]);
      if |b| >= M.HEADER_LEN {
        var h := M.Decode(b);
        RepliesDoNotEnd(Buffer(s, h.seqNo, Packet(h.count, b[M.HEADER_LEN..])), me, rs[1..]);
      }
    }
  }

  lemma {:induction false} DrainDoesNotEnd(s: Rx)
    ensures Drain(s).ended == s.ended
    decreases |s.pending|
  {
    if s.pending != map[] && First(s.pending) == s.nextSeq {
      assert (s.pending - {s.nextSeq}).Keys == s.pending.Keys - {s.nextSeq};
      DrainDoesNotEnd(Consume(s));
    }
  }

  lemma PollEndsIff(s: Rx, me: M.SessionId, a: Arrival)
    ensures Poll(s, me, a).ended <==> s.ended || SaysEnd(me, a)
  {
    if |a.bytes| >= M.HEADER_LEN && !SaysEnd(me, a) {
      var h := M.Decode(a.bytes);
      var b := Buffer(s, h.seqNo, Packet(h.count, a.bytes[M.HEADER_LEN..]));
      GapsDoNotEnd(b, me, MAX_GAP_FILL_ATTEMPTS, a.replies);
      DrainDoesNotEnd(ResolveGaps(b, me, MAX_GAP_FILL_ATTEMPTS, a.replies));
    }
  }

  ghost predicate EndHeard(me: M.SessionId, arrivals: seq<Arrival>) {
    exists i | 0 <= i < |arrivals| :: SaysEnd(me, arrivals[i])
  }

  /** Over any run the session has ended exactly when its last packet was heard on the data
      channel; on the request channel it does not count. */
  lemma {:induction false} EndedIffHeard(s: Rx, me: M.SessionId, arrivals: seq<Arrival>)
    ensures Run(s, me, arrivals).ended <==> s.ended || EndHeard(me, arrivals)
    decreases |arrivals|
  {
    if arrivals != [] {
      var s' := Poll(s, me, arrivals[0]);
      PollEndsIff(s, me, arrivals[0]);
      EndedIffHeard(s', me, arrivals[1..]);
      if EndHeard(me, arrivals) && !SaysEnd(me, arrivals[0]) {
        var i :| 0 <= i < |arrivals| && SaysEnd(me, arrivals[i]);
        assert SaysEnd(me, arrivals[1..][i - 1]);
      }
      if EndHeard(me, arrivals[1..]) {
        var i :| 0 <= i < |arrivals[1..]| && SaysEnd(me, arrivals[1..][i]);
        assert SaysEnd(me, arrivals[i + 1]);
      }
    }
  }
}

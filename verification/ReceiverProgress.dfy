/** Exactly when a poll moves the receiver on, what it asks for, and what it gets back. */
module ReceiverProgress {
  import opened Machine
  import opened Itch
  import M = Mold
  import opened ReceiverSpec
  import opened ReceiverLaws

  // ---------------------------------------------------------------- replies as one reading

  /** The usable replies of one attempt: those before reading would block, of this session,
      with messages, and not below the number waited for. */
  function Usables(me: M.SessionId, next: nat, rs: seq<Recv>): (us: seq<(u64, Packet)>)
    ensures forall i | 0 <= i < |us| :: us[i].0 >= next
    decreases |rs|
  {
    if rs == [] then []
    else if |rs[0].bytes| < M.HEADER_LEN then
      if rs[0].again then [] else Usables(me, next, rs[1..])
    else
      var h := M.Decode(rs[0].bytes);
      if !Usable(next, me, h) then Usables(me, next, rs[1..])
      else [(h.seqNo, Packet(h.count, rs[0].bytes[M.HEADER_LEN..]))] + Usables(me, next, rs[1..])
  }

  function AllUsables(me: M.SessionId, next: nat, attempts: nat, replies: seq<seq<Recv>>): (us: seq<(u64, Packet)>)
    ensures forall i | 0 <= i < |us| :: us[i].0 >= next
    decreases attempts, replies
  {
    if attempts == 0 then []
    else Usables(me, next, Head(replies)) + AllUsables(me, next, attempts - 1, Tail(replies))
  }

  predicate Closed(s: Rx) {
    s.pending != map[] && First(s.pending) == s.nextSeq
  }

  predicate Open(s: Rx) {
    s.pending != map[] && First(s.pending) > s.nextSeq
  }

  /** Buffers replies until the gap is closed. */
  function Absorb(s: Rx, us: seq<(u64, Packet)>): Rx
    decreases |us|
  {
    if us == [] then s
    else
      var s' := Buffer(s, us[0].0, us[0].1);
      if Closed(s') then s' else Absorb(s', us[1..])
  }

  lemma {:induction false} RepliesAbsorb(s: Rx, me: M.SessionId, rs: seq<Recv>)
    ensures TakeReplies(s, me, rs) == Absorb(s, Usables(me, s.nextSeq, rs))
    decreases |rs|
  {
    if rs != [] {
      var b := rs[0].bytes;
      if |b| < M.HEADER_LEN || !Usable(s.nextSeq, me, M.Decode(b)) {
        RepliesAbsorb(s, me, rs[1..]);
      } else {
        var h := M.Decode(b);
        var us := Usables(me, s.nextSeq, rs);
        assert us[1..] == Usables(me, s.nextSeq, rs[1..]);
        RepliesAbsorb(Buffer(s, h.seqNo, Packet(h.count, b[M.HEADER_LEN..])), me, rs[1..]);
      }
    }
  }

  lemma {:induction false} AbsorbIgnoresRequests(s: Rx, q: seq<Request>, us: seq<(u64, Packet)>)
    ensures Absorb(s.(requests := q), us) == Absorb(s, us).(requests := q)
    ensures Absorb(s, us).requests == s.requests && Absorb(s, us).nextSeq == s.nextSeq && Absorb(s, us).log == s.log
    decreases |us|
  {
    if us != [] {
      AbsorbIgnoresRequests(Buffer(s, us[0].0, us[0].1), q, us[1..]);
    }
  }

  lemma BufferOpen(s: Rx, k: u64, p: Packet)
    requires Open(s) && k >= s.nextSeq
    ensures var s' := Buffer(s, k, p);
            (Open(s') || Closed(s')) && (Closed(s') <==> s.nextSeq in s'.pending)
  {
  }

  lemma {:induction false} AbsorbOpen(s: Rx, us: seq<(u64, Packet)>)
    requires Open(s) && forall i | 0 <= i < |us| :: us[i].0 >= s.nextSeq
    ensures var t := Absorb(s, us);
            (Open(t) || Closed(t)) && (Closed(t) <==> s.nextSeq in t.pending)
    decreases |us|
  {
    if us != [] {
      BufferOpen(s, us[0].0, us[0].1);
      if !Closed(Buffer(s, us[0].0, us[0].1)) {
        AbsorbOpen(Buffer(s, us[0].0, us[0].1), us[1..]);
      }
    }
  }

  lemma {:induction false} AbsorbConcat(s: Rx, a: seq<(u64, Packet)>, b: seq<(u64, Packet)>)
    requires Open(s)
    requires forall i | 0 <= i < |a| :: a[i].0 >= s.nextSeq
    ensures Absorb(s, a + b) == if Closed(Absorb(s, a)) then Absorb(s, a) else Absorb(Absorb(s, a), b)
    decreases |a|
  {
    if a == [] {
      assert a + b == b;
    } else {
      assert (a + b)[1..] == a[1..] + b;
      BufferOpen(s, a[0].0, a[0].1);
      if !Closed(Buffer(s, a[0].0, a[0].1)) {
        AbsorbConcat(Buffer(s, a[0].0, a[0].1), a[1..], b);
      }
    }
  }

  lemma AttemptAbsorbs(s: Rx, me: M.SessionId, q: seq<Request>, rs: seq<Recv>)
    requires Open(s)
    ensures var t, u := TakeReplies(s.(requests := q), me, rs), Absorb(s, Usables(me, s.nextSeq, rs));
            && t == u.(requests := q) && t.nextSeq == s.nextSeq && u.requests == s.requests
            && (Open(t) || Closed(t)) && (Closed(t) <==> Closed(u))
  {
    var us := Usables(me, s.nextSeq, rs);
    RepliesAbsorb(s.(requests := q), me, rs);
    AbsorbIgnoresRequests(s, q, us);
    AbsorbOpen(s, us);
  }

  /** The state one attempt leaves behind. */
  function AfterOne(s: Rx, me: M.SessionId, replies: seq<seq<Recv>>): Rx
    requires Open(s)
  {
    TakeReplies(Asked(s), me, Head(replies))
  }

  lemma OneAttempt(s: Rx, me: M.SessionId, n: nat, replies: seq<seq<Recv>>)
    requires Open(s) && n > 0
    ensures var t, u := AfterOne(s, me, replies), Absorb(s, Usables(me, s.nextSeq, Head(replies)));
            && ResolveGaps(s, me, n, replies) == ResolveGaps(t, me, n - 1, Tail(replies))
            && t == u.(requests := t.requests) && u.requests == s.requests && t.nextSeq == s.nextSeq
            && (Open(t) || Closed(t)) && (Closed(t) <==> Closed(u))
            && Absorb(s, AllUsables(me, s.nextSeq, n, replies))
               == if Closed(u) then u else Absorb(u, AllUsables(me, s.nextSeq, n - 1, Tail(replies)))
  {
    AttemptAbsorbs(s, me, s.requests + [GapRequest(s)], Head(replies));
    AbsorbConcat(s, Usables(me, s.nextSeq, Head(replies)), AllUsables(me, s.nextSeq, n - 1, Tail(replies)));
  }

  lemma RequestsAside(r: Rx, q: seq<Request>, t: Rx, u: Rx, rest: seq<(u64, Packet)>)
    requires u.requests == q && t == u.(requests := t.requests) && r.(requests := t.requests) == Absorb(t, rest)
    ensures r.(requests := q) == Absorb(u, rest)
  {
    AbsorbIgnoresRequests(u, t.requests, rest);
  }

  lemma ClosedIsResolved(s: Rx, me: M.SessionId, n: nat, replies: seq<seq<Recv>>)
    requires Closed(s)
    ensures ResolveGaps(s, me, n, replies) == s
  {
  }

  /** The retry loop reads the replies of its attempts as if they were one reading: it
      stops at the first one that closes the gap. */
  lemma {:induction false} GapsAbsorb(s: Rx, me: M.SessionId, n: nat, replies: seq<seq<Recv>>)
    requires Open(s)
    ensures ResolveGaps(s, me, n, replies).(requests := s.requests) == Absorb(s, AllUsables(me, s.nextSeq, n, replies))
    decreases n
  {
    if n > 0 {
      var t, u := AfterOne(s, me, replies), Absorb(s, Usables(me, s.nextSeq, Head(replies)));
      OneAttempt(s, me, n, replies);
      if Open(t) {
        GapsAbsorb(t, me, n - 1, Tail(replies));
        RequestsAside(ResolveGaps(t, me, n - 1, Tail(replies)), s.requests, t, u,
                      AllUsables(me, s.nextSeq, n - 1, Tail(replies)));
      } else {
        ClosedIsResolved(t, me, n - 1, Tail(replies));
      }
    }
  }

  // ---------------------------------------------------------------- the answer

  /** What is buffered once these packets have been, if there is room for all. */
  function Merged(p: Pending, us: seq<(u64, Packet)>): Pending
    decreases |us|
  {
    if us == [] then p else Merged(p[us[0].0 := us[0].1], us[1..])
  }

  lemma {:induction false} MergedGrows(p: Pending, us: seq<(u64, Packet)>)
    ensures p.Keys <= Merged(p, us).Keys
    ensures |p| <= |Merged(p, us)| <= |p| + |us|
    decreases |us|
  {
    if us != [] {
      var p' := p[us[0].0 := us[0].1];
      MergedGrows(p', us[1..]);
      assert p'.Keys == p.Keys + {us[0].0};
    }
  }

  lemma {:induction false} MergedConcat(p: Pending, a: seq<(u64, Packet)>, b: seq<(u64, Packet)>)
    ensures Merged(p, a + b) == Merged(Merged(p, a), b)
    decreases |a|
  {
    if a == [] {
      assert a + b == b;
    } else {
      assert (a + b)[1..] == a[1..] + b;
      MergedConcat(p[a[0].0 := a[0].1], a[1..], b);
    }
  }

  /** Replies that answer none of the number waited for are buffered while there is room. */
  lemma {:induction false} AbsorbOthers(s: Rx, us: seq<(u64, Packet)>)
    requires Open(s) && forall i | 0 <= i < |us| :: us[i].0 > s.nextSeq
    ensures var t := Absorb(s, us);
            && Open(t) && s.nextSeq !in t.pending
            && if |Merged(s.pending, us)| < MAX_PENDING then t.pending == Merged(s.pending, us)
               else |t.pending| >= MAX_PENDING
    decreases |us|
  {
    if us == [] {
      BufferOpen(s, First(s.pending), s.pending[First(s.pending)]);
    } else {
      var s' := Buffer(s, us[0].0, us[0].1);
      BufferOpen(s, us[0].0, us[0].1);
      assert s.nextSeq !in s.pending;
      MergedGrows(s.pending, us);
      AbsorbOthers(s', us[1..]);
      MergedGrows(s'.pending, us[1..]);
    }
  }

  lemma {:induction false} AbsorbCrowded(s: Rx, us: seq<(u64, Packet)>)
    requires Crowded(s) && Open(s) && forall i | 0 <= i < |us| :: us[i].0 >= s.nextSeq
    ensures Open(Absorb(s, us)) && s.nextSeq !in Absorb(s, us).pending
    decreases |us|
  {
    if us != [] {
      BufferOpen(s, us[0].0, us[0].1);
      CrowdedBuffer(s, us[0].0, us[0].1);
      AbsorbCrowded(Buffer(s, us[0].0, us[0].1), us[1..]);
    }
  }

  /** Reply i is the first for the number waited for. */
  predicate FirstAnswer(us: seq<(u64, Packet)>, next: nat, i: nat) {
    i < |us| && us[i].0 == next && forall j | 0 <= j < i :: us[j].0 != next
  }

  /** And what was read before it leaves room for it. */
  predicate Answered(s: Rx, us: seq<(u64, Packet)>, i: nat) {
    FirstAnswer(us, s.nextSeq, i) && |Merged(s.pending, us[..i])| < MAX_PENDING
  }

  lemma AbsorbAnswer(s: Rx, us: seq<(u64, Packet)>, i: nat)
    requires Open(s) && FirstAnswer(us, s.nextSeq, i)
    requires forall j | 0 <= j < |us| :: us[j].0 >= s.nextSeq
    ensures var t := Absorb(s, us);
            if Answered(s, us, i)
            then Closed(t) && t.pending == Merged(s.pending, us[..i + 1])
                 && s.nextSeq in t.pending && t.pending[s.nextSeq] == us[i].1
            else Open(t)
  {
    var a, b := us[..i], us[i..];
    assert a + b == us;
    AbsorbOthers(s, a);
    AbsorbConcat(s, a, b);
    AbsorbIgnoresRequests(s, s.requests, a);
    var t := Absorb(s, a);
    BufferOpen(t, us[i].0, us[i].1);
    if Answered(s, us, i) {
      assert us[..i + 1] == a + [us[i]];
      MergedConcat(s.pending, a, [us[i]]);
      assert Merged(t.pending, [us[i]]) == t.pending[us[i].0 := us[i].1];
    } else {
      AbsorbCrowded(t, b);
    }
  }

  lemma {:induction false} FindAnswer(us: seq<(u64, Packet)>, next: nat) returns (i: nat)
    ensures i <= |us| && (forall j | 0 <= j < i :: us[j].0 != next) && (i < |us| ==> FirstAnswer(us, next, i))
  {
    i := 0;
    while i < |us| && us[i].0 != next
      invariant i <= |us| && forall j | 0 <= j < i :: us[j].0 != next
    {
      i := i + 1;
    }
  }

  // ---------------------------------------------------------------- exactly when a poll moves on

  lemma ClosedDrain(s: Rx)
    requires Closed(s)
    ensures Drain(s).nextSeq > s.nextSeq <==> Frames(s.pending[s.nextSeq].payload) != []
  {
    var c := Consume(s);
    if Frames(s.pending[s.nextSeq].payload) == [] {
      assert c.nextSeq !in c.pending;
      assert Drain(c) == c;
    } else {
      DrainNeverGoesBack(c);
    }
  }

  /** The replies that arrive while a gap is open give the waited-for number a packet with
      at least one message. */
  ghost predicate GapIsAnswered(b: Rx, us: seq<(u64, Packet)>) {
    exists i: nat :: Answered(b, us, i) && Frames(us[i].1.payload) != []
  }

  lemma OneFirstAnswer(b: Rx, us: seq<(u64, Packet)>, i: nat)
    requires FirstAnswer(us, b.nextSeq, i)
    ensures GapIsAnswered(b, us) <==> Answered(b, us, i) && Frames(us[i].1.payload) != []
  {
    if GapIsAnswered(b, us) {
      var j: nat :| Answered(b, us, j) && Frames(us[j].1.payload) != [];
      assert i == j;
    }
  }

  lemma GapsRead(b: Rx, me: M.SessionId, n: nat, replies: seq<seq<Recv>>)
    requires Open(b)
    ensures var r, t := ResolveGaps(b, me, n, replies), Absorb(b, AllUsables(me, b.nextSeq, n, replies));
            && r.pending == t.pending && r.nextSeq == t.nextSeq == b.nextSeq && r.log == b.log
            && Open(r) == Open(t) && Closed(r) == Closed(t)
  {
    GapsAbsorb(b, me, n, replies);
    AbsorbIgnoresRequests(b, b.requests, AllUsables(me, b.nextSeq, n, replies));
  }

  lemma OpenMovesOnIff(b: Rx, me: M.SessionId, n: nat, replies: seq<seq<Recv>>)
    requires Open(b)
    ensures Drain(ResolveGaps(b, me, n, replies)).nextSeq > b.nextSeq
            <==> GapIsAnswered(b, AllUsables(me, b.nextSeq, n, replies))
  {
    var us := AllUsables(me, b.nextSeq, n, replies);
    var r := ResolveGaps(b, me, n, replies);
    GapsRead(b, me, n, replies);
    var i := FindAnswer(us, b.nextSeq);
    if i < |us| {
      OneFirstAnswer(b, us, i);
      AbsorbAnswer(b, us, i);
      if Answered(b, us, i) {
        ClosedDrain(r);
      } else {
        assert Drain(r) == r;
      }
    } else {
      AbsorbOthers(b, us);
      assert Drain(r) == r;
    }
  }

  /** The condition a caller could evaluate beforehand from the state, the datagram and the
      replies it would read: nothing stale is buffered, and the datagram is a packet of this
      session that either is the one waited for, with a message and room to hold it, or is a
      later one while the one waited for is buffered already or is read from the replies. */
  ghost predicate MovesOn(s: Rx, me: M.SessionId, a: Arrival) {
    && !Stale(s)
    && |a.bytes| >= M.HEADER_LEN
    && var h, payload := M.Decode(a.bytes), a.bytes[M.HEADER_LEN..];
       && h.session == me && h.count != M.HEARTBEAT && h.count != M.END_OF_SESSION
       && if h.seqNo <= s.nextSeq then h.seqNo == s.nextSeq && !Crowded(s) && Frames(payload) != []
          else if s.nextSeq in s.pending then Frames(s.pending[s.nextSeq].payload) != []
          else GapIsAnswered(Buffer(s, h.seqNo, Packet(h.count, payload)),
                             AllUsables(me, s.nextSeq, MAX_GAP_FILL_ATTEMPTS, a.replies))
  }

  lemma LaterPacketMovesOnIff(s: Rx, me: M.SessionId, k: u64, p: Packet, replies: seq<seq<Recv>>)
    requires !Stale(s) && k > s.nextSeq
    ensures Accept(s, me, k, p, replies).nextSeq > s.nextSeq
            <==> if s.nextSeq in s.pending then Frames(s.pending[s.nextSeq].payload) != []
                 else GapIsAnswered(Buffer(s, k, p), AllUsables(me, s.nextSeq, MAX_GAP_FILL_ATTEMPTS, replies))
  {
    var b := Buffer(s, k, p);
    if s.nextSeq in s.pending {
      FirstIs(b.pending, s.nextSeq);
      ClosedDrain(b);
    } else {
      NoRoomNoEmpty(s, k, p);
      OpenMovesOnIff(b, me, MAX_GAP_FILL_ATTEMPTS, replies);
    }
  }

  lemma NoRoomNoEmpty(s: Rx, k: u64, p: Packet)
    requires !Stale(s) && s.nextSeq !in s.pending && (k > s.nextSeq || (k == s.nextSeq && Crowded(s)))
    ensures Open(Buffer(s, k, p)) && First(Buffer(s, k, p).pending) >= s.nextSeq
  {
    var b := Buffer(s, k, p);
    if |s.pending| < MAX_PENDING || k in s.pending {
      assert k in b.pending;
    } else {
      assert |b.pending| > 0;
    }
    assert First(b.pending) in b.pending;
  }

  lemma FramelessStays(s: Rx, me: M.SessionId, p: Packet, replies: seq<seq<Recv>>)
    requires s.nextSeq < TWO_64 && !Stale(s) && !Crowded(s) && Frames(p.payload) == []
    ensures Accept(s, me, s.nextSeq, p, replies).nextSeq == s.nextSeq
  {
    var b := Buffer(s, s.nextSeq, p);
    assert b.pending[s.nextSeq] == p;
    FirstIs(b.pending, s.nextSeq);
    ClosedDrain(b);
    DrainNeverGoesBack(b);
  }

  /** For a whole poll, whatever arrives: the exact condition for progress. */
  lemma PollMovesOnIff(s: Rx, me: M.SessionId, a: Arrival)
    ensures Poll(s, me, a).nextSeq > s.nextSeq <==> MovesOn(s, me, a)
  {
    if |a.bytes| >= M.HEADER_LEN {
      var h := M.Decode(a.bytes);
      var p := Packet(h.count, a.bytes[M.HEADER_LEN..]);
      if h.session == me && h.count != M.HEARTBEAT && h.count != M.END_OF_SESSION && h.seqNo >= s.nextSeq {
        if Stale(s) {
          StaleAcceptDoesNothing(s, me, h.seqNo, p, a.replies);
        } else if h.seqNo > s.nextSeq {
          LaterPacketMovesOnIff(s, me, h.seqNo, p, a.replies);
        } else if Frames(p.payload) != [] {
          MovesOnIff(s, me, p, a.replies);
        } else if Crowded(s) {
          CrowdedAccept(s, me, h.seqNo, p, a.replies);
        } else {
          FramelessStays(s, me, p, a.replies);
        }
      }
    }
  }

  // ---------------------------------------------------------------- what changes nothing

  /** Unreadable, foreign, a heartbeat, the end of the session, or a packet that starts
      below the number waited for, even one that contains it. */
  predicate Idle(me: M.SessionId, next: nat, a: Arrival) {
    |a.bytes| >= M.HEADER_LEN ==>
      var h := M.Decode(a.bytes);
      h.session != me || h.count == M.HEARTBEAT || h.count == M.END_OF_SESSION || h.seqNo < next
  }

  /** However many of these arrive, nothing moves but the end-of-session flag: no delivery,
      and no gap is asked for again. */
  lemma {:induction false} IdleChangesNothing(s: Rx, me: M.SessionId, arrivals: seq<Arrival>)
    requires forall i | 0 <= i < |arrivals| :: Idle(me, s.nextSeq, arrivals[i])
    ensures Run(s, me, arrivals) == s.(ended := Run(s, me, arrivals).ended)
    decreases |arrivals|
  {
    if arrivals != [] {
      IdleChangesNothing(Poll(s, me, arrivals[0]), me, arrivals[1..]);
    }
  }

  // ---------------------------------------------------------------- any refusal is fatal

  lemma {:induction false} AbsorbRefusal(s: Rx, us: seq<(u64, Packet)>)
    requires Open(s) && forall i | 0 <= i < |us| :: us[i].0 >= s.nextSeq
    ensures Absorb(s, us).dropped >= s.dropped
    ensures Absorb(s, us).dropped > s.dropped ==> Crowded(Absorb(s, us)) && Open(Absorb(s, us))
    decreases |us|
  {
    if us != [] {
      var s' := Buffer(s, us[0].0, us[0].1);
      BufferOpen(s, us[0].0, us[0].1);
      if !Closed(s') {
        AbsorbRefusal(s', us[1..]);
        if s'.dropped > s.dropped {
          CrowdedStays(s', us[1..]);
        }
      }
    }
  }

  lemma {:induction false} CrowdedStays(s: Rx, us: seq<(u64, Packet)>)
    requires Crowded(s) && Open(s) && forall i | 0 <= i < |us| :: us[i].0 >= s.nextSeq
    ensures Crowded(Absorb(s, us)) && Open(Absorb(s, us))
    decreases |us|
  {
    if us != [] {
      BufferOpen(s, us[0].0, us[0].1);
      CrowdedBuffer(s, us[0].0, us[0].1);
      CrowdedStays(Buffer(s, us[0].0, us[0].1), us[1..]);
    }
  }

  lemma {:induction false} DrainRefusesNothing(s: Rx)
    ensures Drain(s).dropped == s.dropped
    decreases |s.pending|
  {
    if s.pending != map[] && First(s.pending) == s.nextSeq {
      assert (s.pending - {s.nextSeq}).Keys == s.pending.Keys - {s.nextSeq};
      DrainRefusesNothing(Consume(s));
    }
  }

  lemma OpenRefusal(b: Rx, me: M.SessionId, n: nat, replies: seq<seq<Recv>>)
    requires Open(b)
    ensures var r := ResolveGaps(b, me, n, replies);
            r.dropped >= b.dropped && (r.dropped > b.dropped ==> Crowded(r) && Open(r))
  {
    GapsAbsorb(b, me, n, replies);
    AbsorbRefusal(b, AllUsables(me, b.nextSeq, n, replies));
    AbsorbIgnoresRequests(b, b.requests, AllUsables(me, b.nextSeq, n, replies));
  }

  lemma AcceptRefusal(s: Rx, me: M.SessionId, k: u64, p: Packet, replies: seq<seq<Recv>>)
    requires !Stale(s) && s.nextSeq !in s.pending && k >= s.nextSeq
    ensures var s' := Accept(s, me, k, p, replies);
            s'.dropped >= s.dropped && (s'.dropped > s.dropped ==> Crowded(s'))
  {
    var b := Buffer(s, k, p);
    var r := ResolveGaps(b, me, MAX_GAP_FILL_ATTEMPTS, replies);
    DrainRefusesNothing(r);
    if Crowded(s) {
      CrowdedAccept(s, me, k, p, replies);
      NoRoomNoEmpty(s, k, p);
      OpenRefusal(b, me, MAX_GAP_FILL_ATTEMPTS, replies);
    } else if k == s.nextSeq {
      FirstIs(b.pending, k);
      assert r == b;
    } else {
      NoRoomNoEmpty(s, k, p);
      OpenRefusal(b, me, MAX_GAP_FILL_ATTEMPTS, replies);
      if r.dropped > b.dropped {
        assert Drain(r) == r;
      }
    }
  }

  /** Nothing stale and the number waited for not buffered, as after every poll that leaves
      nothing stale: a poll that refuses any packet leaves the buffer full above the gap. */
  lemma RefusalCrowds(s: Rx, me: M.SessionId, a: Arrival)
    requires !Stale(s) && s.nextSeq !in s.pending
    ensures Poll(s, me, a).dropped > s.dropped ==> Crowded(Poll(s, me, a))
  {
    if |a.bytes| >= M.HEADER_LEN {
      var h := M.Decode(a.bytes);
      if Usable(s.nextSeq, me, h) {
        AcceptRefusal(s, me, h.seqNo, Packet(h.count, a.bytes[M.HEADER_LEN..]), a.replies);
      }
    }
  }

  /** Either nothing was ever refused, or the receiver is stuck. */
  ghost predicate UnrefusedOrStuck(s: Rx) {
    Stale(s) || Crowded(s) || (s.dropped == 0 && s.nextSeq !in s.pending)
  }

  lemma PollUnrefusedOrStuck(s: Rx, me: M.SessionId, a: Arrival)
    requires UnrefusedOrStuck(s)
    ensures UnrefusedOrStuck(Poll(s, me, a))
  {
    if |a.bytes| >= M.HEADER_LEN {
      var h := M.Decode(a.bytes);
      var p := Packet(h.count, a.bytes[M.HEADER_LEN..]);
      if Usable(s.nextSeq, me, h) {
        if Stale(s) {
          StaleAcceptDoesNothing(s, me, h.seqNo, p, a.replies);
        } else if Crowded(s) {
          CrowdedAccept(s, me, h.seqNo, p, a.replies);
        } else {
          AcceptRefusal(s, me, h.seqNo, p, a.replies);
          DrainStops(ResolveGaps(Buffer(s, h.seqNo, p), me, MAX_GAP_FILL_ATTEMPTS, a.replies));
        }
      }
    }
  }

  lemma {:induction false} RunUnrefusedOrStuck(s: Rx, me: M.SessionId, arrivals: seq<Arrival>)
    requires UnrefusedOrStuck(s)
    ensures UnrefusedOrStuck(Run(s, me, arrivals))
    decreases |arrivals|
  {
    if arrivals != [] {
      PollUnrefusedOrStuck(s, me, arrivals[0]);
      RunUnrefusedOrStuck(Poll(s, me, arrivals[0]), me, arrivals[1..]);
    }
  }

  /** A refused packet is gone for ever: over every run of arbitrary packets, once one has
      been refused, nothing is ever delivered again. */
  lemma AnyRefusalIsFatal(me: M.SessionId, arrivals: seq<Arrival>, later: seq<Arrival>)
    requires Run(START, me, arrivals).dropped > 0
    ensures Run(START, me, arrivals + later).log == Run(START, me, arrivals).log
    ensures Run(START, me, arrivals + later).nextSeq == Run(START, me, arrivals).nextSeq
  {
    RunUnrefusedOrStuck(START, me, arrivals);
    RunConcat(START, me, arrivals, later);
    var s := Run(START, me, arrivals);
    if Stale(s) {
      StaleIsForever(s, me, later);
    } else {
      CrowdedIsForever(s, me, later);
    }
  }

  // ---------------------------------------------------------------- what is asked for

  lemma {:induction false} GapsKeepRequests(s: Rx, me: M.SessionId, n: nat, replies: seq<seq<Recv>>)
    ensures s.requests <= ResolveGaps(s, me, n, replies).requests
    decreases n
  {
    if s.pending != map[] && First(s.pending) > s.nextSeq && n > 0 {
      var asked := Asked(s);
      RepliesAskNothing(asked, me, Head(replies));
      GapsKeepRequests(TakeReplies(asked, me, Head(replies)), me, n - 1, Tail(replies));
    }
  }

  /** Whether a poll sends any request, from the state and the datagram alone: a packet
      above the number waited for, which is not buffered; or that very packet, refused. */
  predicate Asks(s: Rx, me: M.SessionId, a: Arrival) {
    && |a.bytes| >= M.HEADER_LEN
    && var h := M.Decode(a.bytes);
       && h.session == me && h.count != M.HEARTBEAT && h.count != M.END_OF_SESSION
       && h.seqNo >= s.nextSeq && s.nextSeq !in s.pending
       && (h.seqNo == s.nextSeq ==> |s.pending| >= MAX_PENDING)
  }

  /** The first request a poll sends, if it sends one. */
  function FirstRequest(s: Rx, me: M.SessionId, a: Arrival): Request
    requires |s.requests| < |Poll(s, me, a).requests|
  {
    Poll(s, me, a).requests[|s.requests|]
  }

  lemma AcceptAsks(s: Rx, me: M.SessionId, k: u64, p: Packet, replies: seq<seq<Recv>>)
    requires !Stale(s) && s.nextSeq !in s.pending && (k > s.nextSeq || (k == s.nextSeq && Crowded(s)))
    ensures var b, after := Buffer(s, k, p), Accept(s, me, k, p, replies).requests;
            |after| > |s.requests| && Open(b) && b.nextSeq == s.nextSeq && after[|s.requests|] == GapRequest(b)
  {
    var b := Buffer(s, k, p);
    NoRoomNoEmpty(s, k, p);
    DrainAsksNothing(ResolveGaps(b, me, MAX_GAP_FILL_ATTEMPTS, replies));
    OpenAsks(b, me, MAX_GAP_FILL_ATTEMPTS, replies);
  }

  lemma OpenAsks(b: Rx, me: M.SessionId, n: nat, replies: seq<seq<Recv>>)
    requires Open(b) && n > 0
    ensures b.requests + [GapRequest(b)] <= ResolveGaps(b, me, n, replies).requests
  {
    var asked := Asked(b);
    RepliesAskNothing(asked, me, Head(replies));
    GapsKeepRequests(TakeReplies(asked, me, Head(replies)), me, n - 1, Tail(replies));
  }

  lemma AcceptAsksNot(s: Rx, me: M.SessionId, k: u64, p: Packet, replies: seq<seq<Recv>>)
    requires !Stale(s) && k >= s.nextSeq && (s.nextSeq in s.pending || (k == s.nextSeq && !Crowded(s)))
    ensures Accept(s, me, k, p, replies).requests == s.requests
  {
    var b := Buffer(s, k, p);
    FirstIs(b.pending, s.nextSeq);
    assert ResolveGaps(b, me, MAX_GAP_FILL_ATTEMPTS, replies) == b;
    DrainAsksNothing(b);
  }

  /** The request ends just before the first buffered number, or at the protocol's limit. */
  ghost predicate UpToFirst(b: Rx, r: Request) {
    r.count == 0xFFFE || Earliest(b.pending, r.seqNo + r.count)
  }

  lemma RequestUpToFirst(b: Rx)
    requires Open(b)
    ensures GapRequest(b).seqNo == b.nextSeq && UpToFirst(b, GapRequest(b))
  {
    GapRequestIsProper(b);
  }

  lemma PollAsksAbout(s: Rx, me: M.SessionId, a: Arrival)
    requires !Stale(s) && Asks(s, me, a)
    ensures |Poll(s, me, a).requests| > |s.requests|
    ensures var h := M.Decode(a.bytes);
            var b := Buffer(s, h.seqNo, Packet(h.count, a.bytes[M.HEADER_LEN..]));
            Open(b) && b.nextSeq == s.nextSeq && FirstRequest(s, me, a) == GapRequest(b)
  {
    var h := M.Decode(a.bytes);
    AcceptAsks(s, me, h.seqNo, Packet(h.count, a.bytes[M.HEADER_LEN..]), a.replies);
  }

  lemma PollAsks(s: Rx, me: M.SessionId, a: Arrival)
    requires !Stale(s) && Asks(s, me, a)
    ensures |Poll(s, me, a).requests| > |s.requests|
    ensures var h, r := M.Decode(a.bytes), FirstRequest(s, me, a);
            var b := Buffer(s, h.seqNo, Packet(h.count, a.bytes[M.HEADER_LEN..]));
            r.seqNo == s.nextSeq && UpToFirst(b, r)
  {
    var h := M.Decode(a.bytes);
    PollAsksAbout(s, me, a);
    RequestUpToFirst(Buffer(s, h.seqNo, Packet(h.count, a.bytes[M.HEADER_LEN..])));
  }

  lemma PollAsksNot(s: Rx, me: M.SessionId, a: Arrival)
    requires !Stale(s) && !Asks(s, me, a)
    ensures Poll(s, me, a).requests == s.requests
  {
    if |a.bytes| >= M.HEADER_LEN {
      var h := M.Decode(a.bytes);
      if Usable(s.nextSeq, me, h) {
        AcceptAsksNot(s, me, h.seqNo, Packet(h.count, a.bytes[M.HEADER_LEN..]), a.replies);
      }
    }
  }

  /** A gap is asked about exactly when a number above the one waited for is heard (or that
      one itself is refused); the request then starts at the number waited for and reaches
      up to the first buffered one, or to the protocol's limit. */
  lemma PollAsksIff(s: Rx, me: M.SessionId, a: Arrival)
    requires !Stale(s)
    ensures |Poll(s, me, a).requests| > |s.requests| <==> Asks(s, me, a)
    ensures Asks(s, me, a) ==>
              var h, r := M.Decode(a.bytes), FirstRequest(s, me, a);
              var b := Buffer(s, h.seqNo, Packet(h.count, a.bytes[M.HEADER_LEN..]));
              r.seqNo == s.nextSeq && UpToFirst(b, r)
  {
    if Asks(s, me, a) {
      PollAsks(s, me, a);
    } else {
      PollAsksNot(s, me, a);
    }
  }

  // ---------------------------------------------------------------- nothing beyond what was heard

  /** A packet all of whose messages, and whose own number, are at most m. */
  ghost function HeardUpTo(m: nat): (u64, Packet) -> bool {
    (k: u64, p: Packet) => k <= m && k + |Frames(p.payload)| <= m + 1
  }

  ghost predicate NothingBeyond(m: nat, s: Rx) {
    && s.nextSeq <= m + 1
    && (forall k | k in s.pending :: k <= m && k + |Frames(s.pending[k].payload)| <= m + 1)
    && (forall i | 0 <= i < |s.requests| :: s.requests[i].seqNo + s.requests[i].count <= m)
  }

  lemma ConsumeNotBeyond(m: nat, s: Rx)
    requires NothingBeyond(m, s) && s.nextSeq in s.pending
    ensures NothingBeyond(m, Consume(s))
  {
  }

  ghost function NothingBeyondFor(m: nat): Rx -> bool {
    (s: Rx) => NothingBeyond(m, s)
  }

  lemma RequestNotBeyond(m: nat, s: Rx)
    requires NothingBeyond(m, s) && s.pending != map[] && First(s.pending) > s.nextSeq
    ensures NothingBeyond(m, Asked(s))
  {
    assert First(s.pending) in s.pending;
  }

  lemma NothingBeyondIsKept(m: nat)
    ensures Kept(NothingBeyondFor(m), HeardUpTo(m))
  {
    var inv := NothingBeyondFor(m);
    assert KeptByBuffering(inv, HeardUpTo(m));
    assert KeptByConsuming(inv) by {
      forall s: Rx | inv(s) && s.nextSeq in s.pending && Earliest(s.pending, s.nextSeq)
        ensures inv(Consume(s))
      {
        ConsumeNotBeyond(m, s);
      }
    }
    assert KeptByAsking(inv) by {
      forall s: Rx | inv(s) && s.pending != map[] && First(s.pending) > s.nextSeq
        ensures inv(Asked(s))
      {
        RequestNotBeyond(m, s);
      }
    }
    assert KeptByEnding(inv);
  }

  /** If no message above m was ever heard, then over every run, ended or not, nextSeq is at
      most m+1 and every number ever asked for is below m: a loss above the highest number
      heard is never noticed, and the final number the end of the session announces, which
      is not constrained here, makes no difference. */
  lemma EndOfSessionIsBlind(me: M.SessionId, m: nat, arrivals: seq<Arrival>)
    requires forall i | 0 <= i < |arrivals| :: Admitted(me, HeardUpTo(m), arrivals[i])
    ensures var s := Run(START, me, arrivals);
            s.nextSeq <= m + 1 && forall i | 0 <= i < |s.requests| :: s.requests[i].seqNo + s.requests[i].count <= m
  {
    NothingBeyondIsKept(m);
    assert NothingBeyondFor(m)(START);
    KeptByRun(NothingBeyondFor(m), HeardUpTo(m), START, me, arrivals);
  }

  // ---------------------------------------------------------------- how much one poll recovers

  lemma {:induction false} MergedAhead(s: Rx, us: seq<(u64, Packet)>)
    requires Ahead(s) && forall i | 0 <= i < |us| :: us[i].0 >= s.nextSeq && Single(us[i].1)
    ensures Ahead(s.(pending := Merged(s.pending, us)))
    decreases |us|
  {
    if us != [] {
      MergedAhead(s.(pending := s.pending[us[0].0 := us[0].1]), us[1..]);
    }
  }

  lemma RecoveredIsAhead(b: Rx, us: seq<(u64, Packet)>, r: Rx)
    requires Ahead(b) && forall j | 0 <= j < |us| :: us[j].0 >= b.nextSeq && Single(us[j].1)
    requires r.pending == Merged(b.pending, us) && r.nextSeq == b.nextSeq
    ensures Ahead(r)
  {
    MergedAhead(b, us);
    assert Ahead(b.(pending := Merged(b.pending, us)));
  }

  lemma OpenGapRecovery(b: Rx, me: M.SessionId, n: nat, replies: seq<seq<Recv>>, i: nat)
    requires Ahead(b) && Open(b) && Answered(b, AllUsables(me, b.nextSeq, n, replies), i)
    requires var us := AllUsables(me, b.nextSeq, n, replies);
             (forall j | 0 <= j <= i :: Single(us[j].1)) && |Frames(us[i].1.payload)| == 1
    ensures var us, s' := AllUsables(me, b.nextSeq, n, replies), Drain(ResolveGaps(b, me, n, replies));
            s'.nextSeq > b.nextSeq && LeastMissing(Merged(b.pending, us[..i + 1]), b.nextSeq, s'.nextSeq)
  {
    var us := AllUsables(me, b.nextSeq, n, replies);
    var r := ResolveGaps(b, me, n, replies);
    GapsRead(b, me, n, replies);
    AbsorbAnswer(b, us, i);
    RecoveredIsAhead(b, us[..i + 1], r);
    DrainReachesLeastMissing(r);
    ClosedDrain(r);
  }

  /** A gap of any size, single-frame packets, replies in any order: the poll moves to the
      least number missing from what was buffered and what was read up to and including the
      first answer to the number waited for. Replies behind that answer are not read. */
  lemma GapRecovery(s: Rx, me: M.SessionId, k: u64, p: Packet, replies: seq<seq<Recv>>, i: nat)
    requires Ahead(s) && s.nextSeq !in s.pending && Single(p) && k > s.nextSeq
    requires var us := AllUsables(me, s.nextSeq, MAX_GAP_FILL_ATTEMPTS, replies);
             && Answered(Buffer(s, k, p), us, i)
             && (forall j | 0 <= j <= i :: Single(us[j].1)) && |Frames(us[i].1.payload)| == 1
    ensures var us := AllUsables(me, s.nextSeq, MAX_GAP_FILL_ATTEMPTS, replies);
            var s' := Accept(s, me, k, p, replies);
            s'.nextSeq > s.nextSeq && LeastMissing(Merged(Buffer(s, k, p).pending, us[..i + 1]), s.nextSeq, s'.nextSeq)
  {
    NoRoomNoEmpty(s, k, p);
    BufferStaysAhead(s, k, p);
    OpenGapRecovery(Buffer(s, k, p), me, MAX_GAP_FILL_ATTEMPTS, replies, i);
  }

  /** The first usable reply the attempts read. */
  ghost predicate FirstReply(me: M.SessionId, next: nat, n: nat, replies: seq<seq<Recv>>, u: (u64, Packet)) {
    AllUsables(me, next, n, replies) != [] && AllUsables(me, next, n, replies)[0] == u
  }

  lemma FirstIsAnswered(b: Rx, us: seq<(u64, Packet)>)
    requires us != [] && us[0].0 == b.nextSeq && |b.pending| < MAX_PENDING
    ensures Answered(b, us, 0) && Merged(b.pending, us[..1]) == b.pending[us[0].0 := us[0].1]
  {
    assert us[..0] == [] && us[..1] == [us[0]];
  }

  lemma OpenInOrder(b: Rx, me: M.SessionId, n: nat, replies: seq<seq<Recv>>, u: (u64, Packet))
    requires Open(b) && Ahead(b) && b.nextSeq + 1 !in b.pending && |b.pending| < MAX_PENDING
    requires FirstReply(me, b.nextSeq, n, replies, u) && u.0 == b.nextSeq && |Frames(u.1.payload)| == 1
    ensures var s' := Drain(ResolveGaps(b, me, n, replies));
            && s'.nextSeq == b.nextSeq + 1 && s'.pending == b.pending
            && s'.log == b.log + [Dispatch(Frames(u.1.payload)[0])]
  {
    OpenAnswered(b, me, n, replies, u);
    DrainsJustOne(b, ResolveGaps(b, me, n, replies), u.1);
  }

  /** The retry loop ends at the first usable reply when that answers the number waited for. */
  lemma OpenAnswered(b: Rx, me: M.SessionId, n: nat, replies: seq<seq<Recv>>, u: (u64, Packet))
    requires Open(b) && |b.pending| < MAX_PENDING
    requires FirstReply(me, b.nextSeq, n, replies, u) && u.0 == b.nextSeq
    ensures var r := ResolveGaps(b, me, n, replies);
            Closed(r) && r.pending == b.pending[b.nextSeq := u.1] && r.nextSeq == b.nextSeq && r.log == b.log
  {
    var us := AllUsables(me, b.nextSeq, n, replies);
    GapsRead(b, me, n, replies);
    assert Closed(Absorb(b, us)) && Absorb(b, us).pending == b.pending[b.nextSeq := u.1] by {
      FirstIsAnswered(b, us);
      AbsorbAnswer(b, us, 0);
    }
  }

  lemma DrainsJustOne(b: Rx, r: Rx, f: Packet)
    requires Open(b) && b.nextSeq < TWO_64 && b.nextSeq + 1 !in b.pending && |Frames(f.payload)| == 1
    requires r.nextSeq == b.nextSeq && r.pending == b.pending[b.nextSeq := f] && r.log == b.log && Closed(r)
    ensures Drain(r).nextSeq == b.nextSeq + 1 && Drain(r).pending == b.pending
    ensures Drain(r).log == b.log + [Dispatch(Frames(f.payload)[0])]
  {
    var c := Consume(r);
    assert c.pending == b.pending;
    assert First(c.pending) > c.nextSeq by {
      assert First(b.pending) in b.pending;
    }
    assert Drain(c) == c;
  }

  lemma StepReady(s: Rx, k: u64, p: Packet)
    requires Ahead(s) && s.nextSeq !in s.pending && |s.pending| < MAX_PENDING - 1 && Single(p) && k > s.nextSeq
    ensures var b := Buffer(s, k, p);
            && b == s.(pending := s.pending[k := p]) && Open(b) && Ahead(b) && |b.pending| < MAX_PENDING
  {
    BufferAdds(s, k, p);
    NoRoomNoEmpty(s, k, p);
    BufferStaysAhead(s, k, p);
  }

  lemma BufferAdds(s: Rx, k: u64, p: Packet)
    requires |s.pending| < MAX_PENDING
    ensures Buffer(s, k, p) == s.(pending := s.pending[k := p])
    ensures |s.pending[k := p]| == |s.pending| + (if k in s.pending then 0 else 1)
  {
    assert s.pending[k := p].Keys == s.pending.Keys + {k};
  }

  /** With the next number lost as well and room to spare, a poll whose first usable reply
      answers the number waited for moves on by exactly that one message and keeps the
      packet that caused it. */
  lemma InOrderStep(s: Rx, me: M.SessionId, k: u64, p: Packet, replies: seq<seq<Recv>>, u: (u64, Packet))
    requires Ahead(s) && s.nextSeq !in s.pending && s.nextSeq + 1 !in s.pending && |s.pending| < MAX_PENDING - 1
    requires Single(p) && k > s.nextSeq + 1
    requires FirstReply(me, s.nextSeq, MAX_GAP_FILL_ATTEMPTS, replies, u)
    requires u.0 == s.nextSeq && |Frames(u.1.payload)| == 1
    ensures var s' := Accept(s, me, k, p, replies);
            && s'.nextSeq == s.nextSeq + 1 && s'.pending == s.pending[k := p]
            && s'.log == s.log + [Dispatch(Frames(u.1.payload)[0])]
  {
    StepReady(s, k, p);
    assert s.nextSeq + 1 !in s.pending[k := p];
    OpenInOrder(Buffer(s, k, p), me, MAX_GAP_FILL_ATTEMPTS, replies, u);
  }

  /** The same when the poll closes the gap: it moves to the least number missing. */
  lemma ClosingStep(s: Rx, me: M.SessionId, k: u64, p: Packet, replies: seq<seq<Recv>>, u: (u64, Packet))
    requires Ahead(s) && s.nextSeq !in s.pending && |s.pending| < MAX_PENDING - 1 && Single(p) && k > s.nextSeq
    requires FirstReply(me, s.nextSeq, MAX_GAP_FILL_ATTEMPTS, replies, u)
    requires u.0 == s.nextSeq && |Frames(u.1.payload)| == 1
    ensures LeastMissing(s.pending[k := p][u.0 := u.1], s.nextSeq, Accept(s, me, k, p, replies).nextSeq)
  {
    StepReady(s, k, p);
    OpenCloses(Buffer(s, k, p), me, MAX_GAP_FILL_ATTEMPTS, replies, u);
  }

  lemma OpenCloses(b: Rx, me: M.SessionId, n: nat, replies: seq<seq<Recv>>, u: (u64, Packet))
    requires Open(b) && Ahead(b) && |b.pending| < MAX_PENDING
    requires FirstReply(me, b.nextSeq, n, replies, u) && u.0 == b.nextSeq && Single(u.1)
    ensures LeastMissing(b.pending[u.0 := u.1], b.nextSeq, Drain(ResolveGaps(b, me, n, replies)).nextSeq)
  {
    var r := ResolveGaps(b, me, n, replies);
    OpenAnswered(b, me, n, replies, u);
    assert Ahead(r);
    DrainReachesLeastMissing(r);
  }
}

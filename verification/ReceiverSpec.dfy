/** The receiving end of a MoldUDP64 session as a state machine over arbitrary packets,
    and what holds over every run of it. */
module ReceiverSpec {
  import opened Machine
  import opened Extremes
  import opened Wire
  import opened Itch
  import M = Mold

  const MAX_PENDING: nat := 256
  const MAX_GAP_FILL_ATTEMPTS: nat := 5

  datatype Packet = Packet(count: u16, payload: Bytes)

  type Pending = map<u64, Packet>

  /** A retransmission request, with the sequence numbers buffered when it was sent. */
  datatype Request = Request(seqNo: nat, count: u16, held: set<u64>)

  /** Receiver state; `log` is every handler call made so far. */
  datatype Rx = Rx(
    nextSeq: nat,
    ended: bool,
    dropped: nat,
    mismatches: nat,
    pending: Pending,
    requests: seq<Request>,
    log: seq<Call>)

  const START := Rx(1, false, 0, 0, map[], [], [])

  // ---------------------------------------------------------------- steps

  /** `k` is what `pending_.begin()` points at. */
  ghost predicate Earliest(p: Pending, k: nat) {
    k in p && forall j | j in p :: k <= j
  }

  function First(p: Pending): (k: u64)
    requires p != map[]
    ensures Earliest(p, k)
  {
    assert p.Keys != {};
    BestExists(p.Keys, false);
    assert exists k :: k in p.Keys && forall j | j in p.Keys :: k <= j by {
      var k :| IsBest(p.Keys, false, k);
    }
    var k :| k in p.Keys && forall j | j in p.Keys :: k <= j;
    k
  }

  lemma FirstIs(p: Pending, k: nat)
    requires Earliest(p, k)
    ensures p != map[] && First(p) == k
  {
  }

  function Buffer(s: Rx, seqNo: u64, packet: Packet): Rx {
    if |s.pending| >= MAX_PENDING && seqNo !in s.pending then s.(dropped := s.dropped + 1)
    else s.(pending := s.pending[seqNo := packet])
  }

  /** Hands the earliest packet to the parser and moves on by what it parsed. */
  function Consume(s: Rx): Rx
    requires s.nextSeq in s.pending
  {
    var p := s.pending[s.nextSeq];
    var n := |Frames(p.payload)|;
    s.(pending := s.pending - {s.nextSeq},
       nextSeq := s.nextSeq + n,
       mismatches := s.mismatches + (if n != p.count then 1 else 0),
       log := s.log + Calls(p.payload))
  }

  function Drain(s: Rx): Rx
    decreases |s.pending|
  {
    if s.pending != map[] && First(s.pending) == s.nextSeq then
      assert |s.pending - {s.nextSeq}| < |s.pending| by {
        assert (s.pending - {s.nextSeq}).Keys == s.pending.Keys - {s.nextSeq};
      }
      Drain(Consume(s))
    else s
  }

  /** One `recv` on the request channel: the bytes, and whether an unusable read leaves
      errno at EAGAIN. */
  datatype Recv = Recv(bytes: Bytes, again: bool)

  predicate Usable(next: nat, me: M.SessionId, h: M.Header) {
    h.session == me && h.count != M.HEARTBEAT && h.count != M.END_OF_SESSION && h.seqNo >= next
  }

  /** The reply loop of one attempt; the list ends when the deadline passes. */
  function TakeReplies(s: Rx, me: M.SessionId, rs: seq<Recv>): Rx
    decreases |rs|
  {
    if rs == [] then s
    else if |rs[0].bytes| < M.HEADER_LEN then
      if rs[0].again then s else TakeReplies(s, me, rs[1..])
    else
      var h := M.Decode(rs[0].bytes);
      if !Usable(s.nextSeq, me, h) then TakeReplies(s, me, rs[1..])
      else
        var s' := Buffer(s, h.seqNo, Packet(h.count, rs[0].bytes[M.HEADER_LEN..]));
        if s'.pending != map[] && First(s'.pending) == s'.nextSeq then s'
        else TakeReplies(s', me, rs[1..])
  }

  function GapRequest(s: Rx): Request
    requires s.pending != map[] && First(s.pending) > s.nextSeq
  {
    Request(s.nextSeq, Min(First(s.pending) - s.nextSeq, 0xFFFE), s.pending.Keys)
  }

  function Asked(s: Rx): Rx
    requires s.pending != map[] && First(s.pending) > s.nextSeq
  {
    s.(requests := s.requests + [GapRequest(s)])
  }

  /** Replies still to come, one list per attempt; an attempt with none gets silence. */
  function Head(replies: seq<seq<Recv>>): seq<Recv> {
    if replies == [] then [] else replies[0]
  }

  function Tail(replies: seq<seq<Recv>>): seq<seq<Recv>> {
    if replies == [] then [] else replies[1..]
  }

  function ResolveGaps(s: Rx, me: M.SessionId, attemptsLeft: nat, replies: seq<seq<Recv>>): Rx
    decreases attemptsLeft, replies
  {
    if s.pending != map[] && First(s.pending) > s.nextSeq && attemptsLeft > 0 then
      var asked := Asked(s);
      ResolveGaps(TakeReplies(asked, me, Head(replies)), me, attemptsLeft - 1, Tail(replies))
    else s
  }

  function Accept(s: Rx, me: M.SessionId, seqNo: u64, packet: Packet, replies: seq<seq<Recv>>): Rx {
    if seqNo < s.nextSeq then s
    else Drain(ResolveGaps(Buffer(s, seqNo, packet), me, MAX_GAP_FILL_ATTEMPTS, replies))
  }

  /** One `poll`: a datagram from the data channel, and what the request channel would
      deliver while any gap is being filled. */
  datatype Arrival = Arrival(bytes: Bytes, replies: seq<seq<Recv>>)

  function Ended(s: Rx): Rx {
    s.(ended := true)
  }

  function Poll(s: Rx, me: M.SessionId, a: Arrival): Rx {
    if |a.bytes| < M.HEADER_LEN then s
    else
      var h := M.Decode(a.bytes);
      if h.session != me then s
      else if h.count == M.END_OF_SESSION then Ended(s)
      else if h.count == M.HEARTBEAT then s
      else Accept(s, me, h.seqNo, Packet(h.count, a.bytes[M.HEADER_LEN..]), a.replies)
  }

  function Run(s: Rx, me: M.SessionId, arrivals: seq<Arrival>): Rx
    decreases |arrivals|
  {
    if arrivals == [] then s else Run(Poll(s, me, arrivals[0]), me, arrivals[1..])
  }

  /** What a poll returns: the number of frames it dispatched. */
  function Returned(s: Rx, me: M.SessionId, a: Arrival): int {
    |Poll(s, me, a).log| - |s.log|
  }

  function ReturnedInAll(s: Rx, me: M.SessionId, arrivals: seq<Arrival>): int
    decreases |arrivals|
  {
    if arrivals == [] then 0
    else Returned(s, me, arrivals[0]) + ReturnedInAll(Poll(s, me, arrivals[0]), me, arrivals[1..])
  }

  // ---------------------------------------------------------------- an invariant carried through

  /** Anything preserved by buffering a packet, by consuming the earliest one, and by
      sending a request is preserved by a whole poll. The two parameters are the
      invariant and the packets it admits. */
  ghost predicate Kept(inv: Rx -> bool, admits: (u64, Packet) -> bool) {
    KeptByBuffering(inv, admits) && KeptByConsuming(inv) && KeptByAsking(inv) && KeptByEnding(inv)
  }

  ghost predicate KeptByBuffering(inv: Rx -> bool, admits: (u64, Packet) -> bool) {
    forall s, k, p {:trigger Buffer(s, k, p)} :: inv(s) && admits(k, p) ==> inv(Buffer(s, k, p))
  }

  ghost predicate KeptByConsuming(inv: Rx -> bool) {
    forall s {:trigger Consume(s)} ::
      inv(s) && s.nextSeq in s.pending && Earliest(s.pending, s.nextSeq) ==> inv(Consume(s))
  }

  ghost predicate KeptByAsking(inv: Rx -> bool) {
    forall s {:trigger Asked(s)} ::
      inv(s) && s.pending != map[] && First(s.pending) > s.nextSeq ==> inv(Asked(s))
  }

  ghost predicate KeptByEnding(inv: Rx -> bool) {
    forall s {:trigger Ended(s)} :: inv(s) ==> inv(Ended(s))
  }

  ghost predicate AdmittedDatagram(me: M.SessionId, admits: (u64, Packet) -> bool, b: Bytes) {
    |b| >= M.HEADER_LEN ==>
      var h := M.Decode(b);
      h.session == me && h.count != M.HEARTBEAT && h.count != M.END_OF_SESSION ==>
        admits(h.seqNo, Packet(h.count, b[M.HEADER_LEN..]))
  }

  ghost predicate AdmittedReplies(me: M.SessionId, admits: (u64, Packet) -> bool, rs: seq<Recv>) {
    forall i | 0 <= i < |rs| :: AdmittedDatagram(me, admits, rs[i].bytes)
  }

  ghost predicate Admitted(me: M.SessionId, admits: (u64, Packet) -> bool, a: Arrival) {
    && AdmittedDatagram(me, admits, a.bytes)
    && forall i | 0 <= i < |a.replies| :: AdmittedReplies(me, admits, a.replies[i])
  }

  lemma {:induction false} KeptByReplies(inv: Rx -> bool, admits: (u64, Packet) -> bool, s: Rx,
                                         me: M.SessionId, rs: seq<Recv>)
    requires Kept(inv, admits) && inv(s) && AdmittedReplies(me, admits, rs)
    ensures inv(TakeReplies(s, me, rs))
    decreases |rs|
  {
    if rs != [] {
      var b := rs[0].bytes;
      assert AdmittedDatagram(me, admits, b);
      if |b| < M.HEADER_LEN {
        KeptByReplies(inv, admits, s, me, rs[1..]);
      } else {
        var h := M.Decode(b);
        if Usable(s.nextSeq, me, h) {
          KeptByReplies(inv, admits, Buffer(s, h.seqNo, Packet(h.count, b[M.HEADER_LEN..])), me, rs[1..]);
        } else {
          KeptByReplies(inv, admits, s, me, rs[1..]);
        }
      }
    }
  }

  lemma {:induction false} KeptByGaps(inv: Rx -> bool, admits: (u64, Packet) -> bool, s: Rx,
                                      me: M.SessionId, n: nat, replies: seq<seq<Recv>>)
    requires Kept(inv, admits) && inv(s)
    requires forall i | 0 <= i < |replies| :: AdmittedReplies(me, admits, replies[i])
    ensures inv(ResolveGaps(s, me, n, replies))
    decreases n
  {
    if s.pending != map[] && First(s.pending) > s.nextSeq && n > 0 {
      var asked := Asked(s);
      KeptByReplies(inv, admits, asked, me, Head(replies));
      KeptByGaps(inv, admits, TakeReplies(asked, me, Head(replies)), me, n - 1, Tail(replies));
    }
  }

  lemma {:induction false} KeptByDrain(inv: Rx -> bool, admits: (u64, Packet) -> bool, s: Rx)
    requires Kept(inv, admits) && inv(s)
    ensures inv(Drain(s))
    decreases |s.pending|
  {
    if s.pending != map[] && First(s.pending) == s.nextSeq {
      assert (s.pending - {s.nextSeq}).Keys == s.pending.Keys - {s.nextSeq};
      KeptByDrain(inv, admits, Consume(s));
    }
  }

  lemma KeptByPoll(inv: Rx -> bool, admits: (u64, Packet) -> bool, s: Rx, me: M.SessionId, a: Arrival)
    requires Kept(inv, admits) && inv(s) && Admitted(me, admits, a)
    ensures inv(Poll(s, me, a))
  {
    if |a.bytes| >= M.HEADER_LEN {
      var h := M.Decode(a.bytes);
      var p := Packet(h.count, a.bytes[M.HEADER_LEN..]);
      if h.session == me && h.count != M.END_OF_SESSION && h.count != M.HEARTBEAT && h.seqNo >= s.nextSeq {
        assert AdmittedDatagram(me, admits, a.bytes);
        var b := Buffer(s, h.seqNo, p);
        KeptByGaps(inv, admits, b, me, MAX_GAP_FILL_ATTEMPTS, a.replies);
        KeptByDrain(inv, admits, ResolveGaps(b, me, MAX_GAP_FILL_ATTEMPTS, a.replies));
      }
    }
  }

  lemma {:induction false} KeptByRun(inv: Rx -> bool, admits: (u64, Packet) -> bool, s: Rx,
                                     me: M.SessionId, arrivals: seq<Arrival>)
    requires Kept(inv, admits) && inv(s)
    requires forall i | 0 <= i < |arrivals| :: Admitted(me, admits, arrivals[i])
    ensures inv(Run(s, me, arrivals))
    decreases |arrivals|
  {
    if arrivals != [] {
      KeptByPoll(inv, admits, s, me, arrivals[0]);
      KeptByRun(inv, admits, Poll(s, me, arrivals[0]), me, arrivals[1..]);
    }
  }
}

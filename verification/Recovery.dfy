/** What the receiver gets back after a loss, and what it never does. */
module Recovery {
  import opened Machine
  import opened Wire
  import opened Itch
  import opened Seqs
  import M = Mold
  import opened ReceiverSpec
  import opened ReceiverLaws
  import opened ReceiverProgress
  import opened Session

  // ---------------------------------------------------------------- losses before the last packet

  /** Two or more messages lost and answered in order, with nothing new afterwards but
      heartbeats, the end of the session and repeats: all but the first stay lost, and the
      packet that revealed the loss is never delivered. */
  lemma LaterLossesStay(s: Rx, me: M.SessionId, no: u64, q: u64, f: Bytes, g: Bytes,
                        rest: seq<Recv>, more: seq<seq<Recv>>, later: seq<Arrival>)
    requires CaughtUp(s, no) && q >= no + 2 && |Frames(f)| == 1
    requires forall i | 0 <= i < |later| :: Idle(me, no + 1, later[i])
    ensures var a := Arrival(DataPacket(me, q, 1, g), [[Recv(DataPacket(me, no, 1, f), false)] + rest] + more);
            var s' := Run(s, me, [a] + later);
            s'.nextSeq == no + 1 && s'.pending == map[q := Packet(1, g)] && s'.log == s.log + [Dispatch(Frames(f)[0])]
  {
    var a := Arrival(DataPacket(me, q, 1, g), [[Recv(DataPacket(me, no, 1, f), false)] + rest] + more);
    InOrderRepliesRecoverOne(s, me, no, q, f, g, rest, more);
    RunStep(s, me, a, later);
    IdleChangesNothing(Poll(s, me, a), me, later);
  }

  // ---------------------------------------------------------------- answers in reverse

  /** Messages no, no+1, ... answered from the last to the first. */
  function Backwards(me: M.SessionId, no: u64, fs: seq<Bytes>): seq<Recv>
    requires no + |fs| < TWO_64
  {
    if fs == [] then []
    else [Recv(DataPacket(me, no + |fs| - 1, 1, fs[|fs| - 1]), false)] + Backwards(me, no, fs[..|fs| - 1])
  }

  function Pairs(no: u64, fs: seq<Bytes>): (us: seq<(u64, Packet)>)
    requires no + |fs| < TWO_64
    ensures |us| == |fs|
    ensures forall j | 0 <= j < |fs| :: us[j].0 == no + |fs| - 1 - j && us[j].1 == Packet(1, fs[|fs| - 1 - j])
  {
    if fs == [] then []
    else
      [((no + |fs| - 1) as u64, Packet(1, fs[|fs| - 1]))] + Pairs(no, fs[..|fs| - 1])
  }

  lemma OneUsable(me: M.SessionId, no: u64, q: u64, f: Bytes, rest: seq<Recv>)
    requires q >= no
    ensures Usables(me, no, [Recv(DataPacket(me, q, 1, f), false)] + rest)
         == [(q, Packet(1, f))] + Usables(me, no, rest)
  {
    var rs := [Recv(DataPacket(me, q, 1, f), false)] + rest;
    assert rs[1..] == rest;
    M.HeaderRoundTrip(M.Header(me, q, 1), f);
  }

  lemma BackwardsStep(me: M.SessionId, no: u64, last: u64, fs: seq<Bytes>)
    requires fs != [] && last == no + |fs| - 1 && last + 1 < TWO_64
    ensures var n := |fs| - 1;
            && Backwards(me, no, fs) == [Recv(DataPacket(me, last, 1, fs[n]), false)] + Backwards(me, no, fs[..n])
            && Pairs(no, fs) == [(last, Packet(1, fs[n]))] + Pairs(no, fs[..n])
  {
  }

  lemma {:induction false} BackwardsUsables(me: M.SessionId, no: u64, fs: seq<Bytes>)
    requires no + |fs| < TWO_64
    ensures Usables(me, no, Backwards(me, no, fs)) == Pairs(no, fs)
    decreases |fs|
  {
    if fs != [] {
      var n, last: u64 := |fs| - 1, no + |fs| - 1;
      BackwardsUsables(me, no, fs[..n]);
      BackwardsStep(me, no, last, fs);
      OneUsable(me, no, last, fs[n], Backwards(me, no, fs[..n]));
    }
  }

  /** Once merged, exactly the numbers answered are buffered besides what was there. */
  lemma {:induction false} MergedPairs(p: Pending, no: u64, fs: seq<Bytes>)
    requires no + |fs| < TWO_64 && forall q | q in p :: q >= no + |fs|
    ensures var m := Merged(p, Pairs(no, fs));
            && (forall q | q in p :: q in m && m[q] == p[q])
            && (forall q: u64 | no <= q < no + |fs| :: q in m && m[q] == Packet(1, fs[q - no]))
            && (forall q | q in m :: q in p || no <= q < no + |fs|)
    decreases |fs|
  {
    if fs != [] {
      var n := |fs| - 1;
      var us := Pairs(no, fs);
      assert us[1..] == Pairs(no, fs[..n]);
      var p' := p[(no + n) as u64 := Packet(1, fs[n])];
      MergedPairs(p', no, fs[..n]);
      var m := Merged(p', Pairs(no, fs[..n]));
      assert Merged(p, us) == m;
      forall q: u64 | no <= q < no + |fs|
        ensures q in m && m[q] == Packet(1, fs[q - no])
      {
        if q == no + n {
          assert q in p' && m[q] == p'[q];
        } else {
          assert m[q] == Packet(1, fs[..n][q - no]);
        }
      }
    }
  }

  lemma AllAreReady(p: Pending, no: u64, q: u64, fs: seq<Bytes>, to: nat)
    requires no + |fs| == q && p.Keys == {q} && |Frames(p[q].payload)| == 1
    requires forall j | 0 <= j < |fs| :: |Frames(fs[j])| == 1
    requires LeastMissing(Merged(p, Pairs(no, fs)), no, to)
    ensures to == q + 1
  {
    MergedPairs(p, no, fs);
    var m := Merged(p, Pairs(no, fs));
    forall x: nat | no <= x <= q
      ensures Ready(m, x)
    {
      if x < q {
        var y: u64 := x;
        assert m[y] == Packet(1, fs[y - no]);
      } else {
        assert q in p;
      }
    }
    assert !Ready(m, q + 1);
  }

  lemma BackwardsAnswers(b: Rx, me: M.SessionId, no: u64, q: u64, fs: seq<Bytes>, us: seq<(u64, Packet)>)
    requires b.nextSeq == no && |b.pending| == 1 && 1 <= |fs| < MAX_PENDING && no + |fs| == q
    requires |us| >= |fs| && us[..|fs|] == Pairs(no, fs)
    requires forall j | 0 <= j < |fs| :: |Frames(fs[j])| == 1
    ensures Answered(b, us, |fs| - 1)
    ensures forall j | 0 <= j < |fs| :: |Frames(us[j].1.payload)| == 1
  {
    var k := |fs|;
    forall j | 0 <= j < k
      ensures us[j] == Pairs(no, fs)[j]
    {
      assert us[j] == us[..k][j];
    }
    MergedGrows(b.pending, us[..k - 1]);
  }

  lemma FirstAttempt(me: M.SessionId, no: u64, q: u64, fs: seq<Bytes>, n: nat, more: seq<seq<Recv>>)
    requires no + |fs| == q && n >= 1
    ensures var us := AllUsables(me, no, n, [Backwards(me, no, fs)] + more);
            |us| >= |fs| && us[..|fs|] == Pairs(no, fs)
  {
    BackwardsUsables(me, no, fs);
  }

  lemma LoneIsOpen(b: Rx, q: u64, g: Packet)
    requires b.pending == map[q := g] && b.nextSeq < q && Single(g)
    ensures Ahead(b) && Open(b) && |b.pending| == 1 && b.pending.Keys == {q} && b.pending[q] == g
  {
    FirstIs(b.pending, q);
  }

  lemma BackwardsLeast(b: Rx, me: M.SessionId, no: u64, q: u64, fs: seq<Bytes>, g: Packet,
                       n: nat, replies: seq<seq<Recv>>)
    requires b.nextSeq == no && b.pending == map[q := g] && 1 <= |fs| < MAX_PENDING && no + |fs| == q
    requires |Frames(g.payload)| == 1 && forall j | 0 <= j < |fs| :: |Frames(fs[j])| == 1
    requires |AllUsables(me, no, n, replies)| >= |fs| && AllUsables(me, no, n, replies)[..|fs|] == Pairs(no, fs)
    ensures LeastMissing(Merged(b.pending, Pairs(no, fs)), no, Drain(ResolveGaps(b, me, n, replies)).nextSeq)
  {
    LoneIsOpen(b, q, g);
    BackwardsAnswers(b, me, no, q, fs, AllUsables(me, no, n, replies));
    OpenGapRecovery(b, me, n, replies, |fs| - 1);
  }

  lemma BackwardsFill(b: Rx, me: M.SessionId, no: u64, q: u64, fs: seq<Bytes>, g: Packet,
                      n: nat, replies: seq<seq<Recv>>)
    requires b.nextSeq == no && b.pending == map[q := g] && 1 <= |fs| < MAX_PENDING && no + |fs| == q
    requires |Frames(g.payload)| == 1 && forall j | 0 <= j < |fs| :: |Frames(fs[j])| == 1
    requires |AllUsables(me, no, n, replies)| >= |fs| && AllUsables(me, no, n, replies)[..|fs|] == Pairs(no, fs)
    ensures Drain(ResolveGaps(b, me, n, replies)).nextSeq == q + 1
  {
    BackwardsLeast(b, me, no, q, fs, g, n, replies);
    LoneIsOpen(b, q, g);
    AllAreReady(b.pending, no, q, fs, Drain(ResolveGaps(b, me, n, replies)).nextSeq);
  }

  /** Answered in reverse, a gap of up to 255 messages closes in the poll that reveals it:
      the number waited for is then the one after the revealing packet. */
  lemma BackwardsRepliesRecoverAll(s: Rx, me: M.SessionId, no: u64, q: u64, fs: seq<Bytes>, g: Bytes,
                                   more: seq<seq<Recv>>)
    requires CaughtUp(s, no) && 1 <= |fs| < MAX_PENDING && no + |fs| == q
    requires |Frames(g)| == 1 && forall j | 0 <= j < |fs| :: |Frames(fs[j])| == 1
    ensures var s' := Poll(s, me, Arrival(DataPacket(me, q, 1, g), [Backwards(me, no, fs)] + more));
            s'.nextSeq == q + 1
  {
    var replies := [Backwards(me, no, fs)] + more;
    var b := Buffer(s, q, Packet(1, g));
    LossIsAsked(s, no, q, g);
    FirstAttempt(me, no, q, fs, MAX_GAP_FILL_ATTEMPTS, more);
    BackwardsFill(b, me, no, q, fs, Packet(1, g), MAX_GAP_FILL_ATTEMPTS, replies);
    PollDrains(s, me, q, 1, g, replies, ResolveGaps(b, me, MAX_GAP_FILL_ATTEMPTS, replies));
  }

  // ---------------------------------------------------------------- answers in order, poll after poll

  /** One poll after the loss: a later message g comes in, and the request is answered
      starting with the lost message f, whatever else is read or left unread. */
  datatype Reveal = Reveal(f: Bytes, g: Bytes, rest: seq<Recv>, more: seq<seq<Recv>>)

  /** Messages no to no+k-1 are lost; the j-th poll afterwards hears no+k+j. */
  function RevealArrival(me: M.SessionId, no: nat, k: nat, j: nat, r: Reveal): Arrival
    requires no + k + j < TWO_64
  {
    Arrival(DataPacket(me, no + k + j, 1, r.g), AnswersFor(me, no + j, r))
  }

  function AnswersFor(me: M.SessionId, lost: u64, r: Reveal): seq<seq<Recv>> {
    [[Recv(DataPacket(me, lost, 1, r.f), false)] + r.rest] + r.more
  }

  function RevealArrivals(me: M.SessionId, no: nat, k: nat, rs: seq<Reveal>, n: nat): seq<Arrival>
    requires n <= |rs| && no + k + n < TWO_64
  {
    if n == 0 then []
    else RevealArrivals(me, no, k, rs, n - 1) + [RevealArrival(me, no, k, n - 1, rs[n - 1])]
  }

  ghost predicate WholeFrames(rs: seq<Reveal>) {
    forall j | 0 <= j < |rs| :: |Frames(rs[j].f)| == 1 && |Frames(rs[j].g)| == 1
  }

  /** Exactly the numbers from lo up to hi are buffered, each with one message. */
  ghost predicate Holds(p: Pending, lo: nat, hi: nat) {
    forall q: u64 :: (q in p <==> lo <= q < hi) && (q in p ==> |Frames(p[q].payload)| == 1)
  }

  lemma HoldsOneMore(p: Pending, lo: nat, hi: u64, g: Packet)
    requires lo <= hi && Holds(p, lo, hi) && |Frames(g.payload)| == 1
    ensures Holds(p[hi := g], lo, hi + 1)
  {
  }

  lemma HeldIsReady(p: Pending, lo: u64, from: nat, hi: nat, f: Packet, to: nat)
    requires from == lo + 1 <= hi <= TWO_64 && Holds(p, from, hi)
    requires |Frames(f.payload)| == 1 && LeastMissing(p[lo := f], lo, to)
    ensures to == hi
  {
    var m := p[lo := f];
    assert !Ready(m, hi);
    assert forall t: u64 | lo <= t < hi :: t in m && Ready(m, t);
  }

  /** j of the k lost messages recovered, and the j later ones heard so far buffered. */
  ghost predicate Partly(s: Rx, no: nat, k: nat, j: nat) {
    s.nextSeq == no + j && |s.pending| == j && Holds(s.pending, no + k, no + k + j)
  }

  lemma FirstOfAll(me: M.SessionId, next: nat, n: nat, replies: seq<seq<Recv>>, u: (u64, Packet),
                   us: seq<(u64, Packet)>)
    requires n >= 1 && Usables(me, next, Head(replies)) == [u] + us
    ensures FirstReply(me, next, n, replies, u)
  {
  }

  lemma RevealedFirst(me: M.SessionId, lost: u64, r: Reveal)
    ensures FirstReply(me, lost, MAX_GAP_FILL_ATTEMPTS, AnswersFor(me, lost, r), (lost, Packet(1, r.f)))
  {
    OneUsable(me, lost, lost, r.f, r.rest);
    FirstOfAll(me, lost, MAX_GAP_FILL_ATTEMPTS, AnswersFor(me, lost, r), (lost, Packet(1, r.f)),
               Usables(me, lost, r.rest));
  }

  lemma PollOfReveal(s: Rx, me: M.SessionId, no: nat, k: nat, j: nat, r: Reveal, q: u64, lost: u64)
    requires q == no + k + j && lost == no + j
    ensures Poll(s, me, RevealArrival(me, no, k, j, r)) == Accept(s, me, q, Packet(1, r.g), AnswersFor(me, lost, r))
  {
    RevealIs(me, no, k, j, r, q, lost);
    PollOfDataPacket(s, me, q, 1, r.g, AnswersFor(me, lost, r));
  }

  lemma RevealIs(me: M.SessionId, no: nat, k: nat, j: nat, r: Reveal, q: u64, lost: u64)
    requires q == no + k + j && lost == no + j
    ensures RevealArrival(me, no, k, j, r) == Arrival(DataPacket(me, q, 1, r.g), AnswersFor(me, lost, r))
  {
  }

  lemma PartlyHolds(s: Rx, no: nat, k: nat, j: nat, q: u64)
    requires Partly(s, no, k, j) && q == no + k + j
    ensures Holds(s.pending, no + k, q)
  {
  }

  lemma PartlyFacts(s: Rx, no: nat, k: nat, j: nat)
    requires Partly(s, no, k, j) && j < k && no + k <= TWO_64
    ensures Ahead(s) && s.nextSeq !in s.pending
    ensures j + 1 < k ==> s.nextSeq + 1 !in s.pending
  {
  }

  lemma PartlyGrows(s: Rx, t: Rx, no: nat, k: nat, j: nat, q: u64, p: Packet)
    requires Partly(s, no, k, j) && q == no + k + j && |Frames(p.payload)| == 1
    requires t.nextSeq == s.nextSeq + 1 && t.pending == s.pending[q := p]
    ensures Partly(t, no, k, j + 1)
  {
    PartlyHolds(s, no, k, j, q);
    HoldsOneMore(s.pending, no + k, q, p);
    assert q !in s.pending;
    assert t.pending.Keys == s.pending.Keys + {q};
  }

  lemma OneMoreAccepted(s: Rx, me: M.SessionId, no: nat, k: nat, j: nat, q: u64, p: Packet,
                        replies: seq<seq<Recv>>, u: (u64, Packet))
    requires Partly(s, no, k, j) && j + 1 < k && j + 1 < MAX_PENDING && q == no + k + j && |Frames(p.payload)| == 1
    requires FirstReply(me, s.nextSeq, MAX_GAP_FILL_ATTEMPTS, replies, u)
    requires u.0 == s.nextSeq && |Frames(u.1.payload)| == 1
    ensures Partly(Accept(s, me, q, p, replies), no, k, j + 1)
  {
    PartlyFacts(s, no, k, j);
    assert Accept(s, me, q, p, replies).nextSeq == s.nextSeq + 1
           && Accept(s, me, q, p, replies).pending == s.pending[q := p] by {
      InOrderStep(s, me, q, p, replies, u);
    }
    PartlyGrows(s, Accept(s, me, q, p, replies), no, k, j, q, p);
  }

  /** What a poll of reveal j comes to: packet q accepted, and the first usable reply. */
  lemma RevealAccepted(s: Rx, me: M.SessionId, no: nat, k: nat, j: nat, r: Reveal)
    returns (q: u64, replies: seq<seq<Recv>>, u: (u64, Packet))
    requires no + k + j < TWO_64 && s.nextSeq == no + j
    ensures q == no + k + j
    ensures Poll(s, me, RevealArrival(me, no, k, j, r)) == Accept(s, me, q, Packet(1, r.g), replies)
    ensures FirstReply(me, s.nextSeq, MAX_GAP_FILL_ATTEMPTS, replies, u) && u.0 == s.nextSeq && u.1 == Packet(1, r.f)
  {
    q, replies, u := no + k + j, AnswersFor(me, s.nextSeq, r), (s.nextSeq, Packet(1, r.f));
    PollOfReveal(s, me, no, k, j, r, q, s.nextSeq);
    RevealedFirst(me, s.nextSeq, r);
  }

  lemma OneMoreRecovered(s: Rx, me: M.SessionId, no: nat, k: nat, j: nat, r: Reveal, n: nat)
    requires Partly(s, no, k, j) && n == j + 1 && n < k && n < MAX_PENDING && no + k + j < TWO_64
    requires |Frames(r.f)| == 1 && |Frames(r.g)| == 1
    ensures Partly(Poll(s, me, RevealArrival(me, no, k, j, r)), no, k, n)
  {
    var q, replies, u := RevealAccepted(s, me, no, k, j, r);
    OneMoreAccepted(s, me, no, k, j, q, Packet(1, r.g), replies, u);
  }

  lemma NoneRecovered(s: Rx, no: nat, k: nat)
    requires CaughtUp(s, no) && no + k <= TWO_64
    ensures Partly(s, no, k, 0)
  {
  }

  lemma RevealsSnoc(s: Rx, me: M.SessionId, no: nat, k: nat, rs: seq<Reveal>, j: nat, n: nat)
    requires n == j + 1 && n <= |rs| && no + k + n < TWO_64
    ensures Run(s, me, RevealArrivals(me, no, k, rs, n))
         == Poll(Run(s, me, RevealArrivals(me, no, k, rs, j)), me, RevealArrival(me, no, k, j, rs[j]))
  {
    RunSnoc(s, me, RevealArrivals(me, no, k, rs, j), RevealArrival(me, no, k, j, rs[j]));
  }

  lemma {:induction false} PartlyAfter(s: Rx, me: M.SessionId, no: nat, k: nat, rs: seq<Reveal>, n: nat)
    requires CaughtUp(s, no) && WholeFrames(rs) && n <= |rs| && n < k && n < MAX_PENDING && no + k + n < TWO_64
    ensures Partly(Run(s, me, RevealArrivals(me, no, k, rs, n)), no, k, n)
    decreases n
  {
    if n == 0 {
      NoneRecovered(s, no, k);
    } else {
      var j := n - 1;
      PartlyAfter(s, me, no, k, rs, j);
      RevealsSnoc(s, me, no, k, rs, j, n);
      OneMoreRecovered(Run(s, me, RevealArrivals(me, no, k, rs, j)), me, no, k, j, rs[j], n);
    }
  }

  lemma LastAccepted(s: Rx, me: M.SessionId, no: nat, k: nat, q: u64, p: Packet,
                     replies: seq<seq<Recv>>, u: (u64, Packet))
    requires 1 <= k < MAX_PENDING && q == no + 2 * k - 1 && Partly(s, no, k, k - 1) && |Frames(p.payload)| == 1
    requires FirstReply(me, s.nextSeq, MAX_GAP_FILL_ATTEMPTS, replies, u)
    requires u.0 == s.nextSeq && |Frames(u.1.payload)| == 1
    ensures Accept(s, me, q, p, replies).nextSeq == q + 1
  {
    assert LeastMissing(s.pending[q := p][u.0 := u.1], u.0, Accept(s, me, q, p, replies).nextSeq) by {
      PartlyFacts(s, no, k, k - 1);
      ClosingStep(s, me, q, p, replies, u);
    }
    NoneMissing(s, no, k, q, p, u, Accept(s, me, q, p, replies).nextSeq);
  }

  lemma NoneMissing(s: Rx, no: nat, k: nat, q: u64, p: Packet, u: (u64, Packet), to: nat)
    requires k >= 1 && q == no + 2 * k - 1 && Partly(s, no, k, k - 1) && u.0 == s.nextSeq
    requires |Frames(p.payload)| == 1 && |Frames(u.1.payload)| == 1
    requires LeastMissing(s.pending[q := p][u.0 := u.1], u.0, to)
    ensures to == q + 1
  {
    PartlyHolds(s, no, k, k - 1, q);
    HoldsOneMore(s.pending, no + k, q, p);
    HeldIsReady(s.pending[q := p], u.0, no + k, q + 1, u.1, to);
  }

  lemma LastRecovered(s: Rx, me: M.SessionId, no: nat, k: nat, r: Reveal)
    requires 1 <= k < MAX_PENDING && no + 2 * k < TWO_64 && Partly(s, no, k, k - 1)
    requires |Frames(r.f)| == 1 && |Frames(r.g)| == 1
    ensures Poll(s, me, RevealArrival(me, no, k, k - 1, r)).nextSeq == no + 2 * k
  {
    var q, replies, u := RevealAccepted(s, me, no, k, k - 1, r);
    LastAccepted(s, me, no, k, q, Packet(1, r.g), replies, u);
  }

  lemma FullIsCrowded(s: Rx, me: M.SessionId, no: nat, k: nat, r: Reveal)
    requires k >= MAX_PENDING && no + k + MAX_PENDING <= TWO_64 && Partly(s, no, k, MAX_PENDING - 1)
    requires |Frames(r.g)| == 1
    ensures var s' := Poll(s, me, RevealArrival(me, no, k, MAX_PENDING - 1, r));
            Crowded(s') && s'.nextSeq == s.nextSeq
  {
    var q, replies, u := RevealAccepted(s, me, no, k, MAX_PENDING - 1, r);
    FullAccepted(s, me, no, k, q, Packet(1, r.g), replies);
  }

  lemma FullAccepted(s: Rx, me: M.SessionId, no: nat, k: nat, q: u64, p: Packet, replies: seq<seq<Recv>>)
    requires k >= MAX_PENDING && q == no + k + MAX_PENDING - 1 && Partly(s, no, k, MAX_PENDING - 1)
    requires |Frames(p.payload)| == 1
    ensures Crowded(Accept(s, me, q, p, replies)) && Accept(s, me, q, p, replies).nextSeq == s.nextSeq
  {
    PartlyFacts(s, no, k, MAX_PENDING - 1);
    PartlyHolds(s, no, k, MAX_PENDING - 1, q);
    assert q !in s.pending && s.nextSeq < q;
    BufferAdds(s, q, p);
    CrowdedAfterBuffer(s, me, q, p, replies);
  }

  lemma ClosesWithRoom(s: Rx, me: M.SessionId, no: nat, k: nat, rs: seq<Reveal>)
    requires CaughtUp(s, no) && WholeFrames(rs) && |rs| == k && 1 <= k < MAX_PENDING && no + 2 * k < TWO_64
    ensures Run(s, me, RevealArrivals(me, no, k, rs, k)).nextSeq == no + 2 * k
  {
    var j := k - 1;
    PartlyAfter(s, me, no, k, rs, j);
    RevealsSnoc(s, me, no, k, rs, j, k);
    LastRecovered(Run(s, me, RevealArrivals(me, no, k, rs, j)), me, no, k, rs[j]);
  }

  lemma FullAfter(s: Rx, me: M.SessionId, no: nat, k: nat, rs: seq<Reveal>)
    requires CaughtUp(s, no) && WholeFrames(rs) && |rs| == k >= MAX_PENDING && no + 2 * k < TWO_64
    ensures var t := Run(s, me, RevealArrivals(me, no, k, rs, MAX_PENDING));
            Crowded(t) && t.nextSeq == no + MAX_PENDING - 1
  {
    var j := MAX_PENDING - 1;
    PartlyAfter(s, me, no, k, rs, j);
    RevealsSnoc(s, me, no, k, rs, j, MAX_PENDING);
    FullIsCrowded(Run(s, me, RevealArrivals(me, no, k, rs, j)), me, no, k, rs[j]);
  }

  /** k adjacent messages lost, every request answered in order: one message comes back per
      poll, and the gap closes with the k-th later packet if and only if the buffer can hold
      all of them. From 256 on it never closes: 255 messages are recovered, and then nothing
      is delivered whatever arrives. */
  lemma InOrderClosesIff(s: Rx, me: M.SessionId, no: nat, k: nat, rs: seq<Reveal>, later: seq<Arrival>)
    requires CaughtUp(s, no) && WholeFrames(rs) && |rs| == k >= 1 && no + 2 * k < TWO_64
    ensures k <= 255 ==> Run(s, me, RevealArrivals(me, no, k, rs, k)).nextSeq == no + 2 * k
    ensures k >= 256 ==> Run(s, me, RevealArrivals(me, no, k, rs, 256) + later).nextSeq == no + 255
    ensures forall n: nat | n < k && n <= 255 :: Run(s, me, RevealArrivals(me, no, k, rs, n)).nextSeq == no + n
  {
    forall n: nat | n < k && n < MAX_PENDING
      ensures Run(s, me, RevealArrivals(me, no, k, rs, n)).nextSeq == no + n
    {
      PartlyAfter(s, me, no, k, rs, n);
    }
    if k < MAX_PENDING {
      ClosesWithRoom(s, me, no, k, rs);
    } else {
      FullAfter(s, me, no, k, rs);
      RunConcat(s, me, RevealArrivals(me, no, k, rs, MAX_PENDING), later);
      CrowdedIsForever(Run(s, me, RevealArrivals(me, no, k, rs, MAX_PENDING)), me, later);
    }
  }

  // ---------------------------------------------------------------- the last message lost

  /** Everything on the wire is heard, in order, and nothing on the request channel. */
  function HeardAll(wire: seq<Bytes>): (arrivals: seq<Arrival>)
    ensures |arrivals| == |wire|
  {
    seq(|wire|, i requires 0 <= i < |wire| => Arrival(wire[i], []))
  }

  lemma HeardAllSnoc(wire: seq<Bytes>, b: Bytes)
    ensures HeardAll(wire + [b]) == HeardAll(wire) + [Arrival(b, [])]
  {
  }

  /** The packet waited for, alone: delivered at once, nothing asked. */
  lemma NextInLine(s: Rx, me: M.SessionId, no: u64, f: Bytes)
    requires CaughtUp(s, no) && |Frames(f)| == 1
    ensures var s' := Poll(s, me, Arrival(DataPacket(me, no, 1, f), []));
            && CaughtUp(s', no + 1) && s'.log == s.log + [Dispatch(Frames(f)[0])]
            && s'.requests == s.requests && s'.ended == s.ended
  {
    PollOfDataPacket(s, me, no, 1, f, []);
    var b := Buffer(s, no, Packet(1, f));
    assert b.pending == map[no := Packet(1, f)];
    FirstIs(b.pending, no);
    var c := Consume(b);
    assert c.pending == map[];
    assert Drain(c) == c;
  }

  lemma BlockIsOneFrame(framed: Bytes, i: nat)
    requires i < |Blocks(framed)|
    ensures |Calls(framed)| == |Blocks(framed)|
    ensures var f := Frames(Blocks(framed)[i]);
            |f| == 1 && Dispatch(f[0]) == Calls(framed)[i]
  {
    var block := Blocks(framed)[i];
    AsManyBlocksAsFrames(framed);
    BlockFront(framed, i, |block|);
    assert block[..|block|] == block;
  }

  /** The first n messages delivered, and nothing else done. */
  ghost predicate InLine(s: Rx, framed: Bytes, n: nat) {
    CaughtUp(s, n + 1) && n <= |Calls(framed)| && s.log == Calls(framed)[..n] && s.requests == [] && !s.ended
  }

  lemma InLineStep(s: Rx, me: M.SessionId, framed: Bytes, n: nat)
    requires 1 <= n <= |Blocks(framed)| < TWO_64 && InLine(s, framed, n - 1)
    ensures InLine(Poll(s, me, Arrival(DataPacket(me, n, 1, Blocks(framed)[n - 1]), [])), framed, n)
  {
    BlockIsOneFrame(framed, n - 1);
    NextInLine(s, me, n, Blocks(framed)[n - 1]);
    TakeOneMore(Calls(framed), n);
  }

  lemma {:induction false} SentIsInLine(me: M.SessionId, framed: Bytes, drop: u64 -> bool, n: nat)
    requires n <= |Blocks(framed)| < TWO_64 && forall q: u64 | 1 <= q <= n :: !drop(q)
    ensures InLine(Run(START, me, HeardAll(SentBefore(me, Blocks(framed), drop, n))), framed, n)
    decreases n
  {
    if n > 0 {
      var wire, pkt := SentBefore(me, Blocks(framed), drop, n - 1), DataPacket(me, n, 1, Blocks(framed)[n - 1]);
      SentIsInLine(me, framed, drop, n - 1);
      InLineStep(Run(START, me, HeardAll(wire)), me, framed, n);
      HeardAllSnoc(wire, pkt);
      RunSnoc(START, me, HeardAll(wire), Arrival(pkt, []));
      assert !drop(n);
    }
  }

  /** With nothing lost, everything the buffer holds is delivered, nothing is asked for, and
      the session is reported ended. */
  lemma LosslessRunDeliversAll(me: M.SessionId, framed: Bytes)
    requires |Blocks(framed)| < TWO_64 - 1
    ensures var n := |Blocks(framed)|;
            var wire := SentBefore(me, Blocks(framed), (_: u64) => false, n)
                        + [DataPacket(me, n + 1, M.END_OF_SESSION, [])];
            var s := Run(START, me, HeardAll(wire));
            s.ended && s.log == Calls(framed) && s.requests == [] && s.pending == map[]
  {
    var n, none := |Blocks(framed)|, (_: u64) => false;
    var sent, end := SentBefore(me, Blocks(framed), none, n), DataPacket(me, n + 1, M.END_OF_SESSION, []);
    AsManyBlocksAsFrames(framed);
    SentIsInLine(me, framed, none, n);
    assert Calls(framed)[..n] == Calls(framed);
    HeardAllSnoc(sent, end);
    RunSnoc(START, me, HeardAll(sent), Arrival(end, []));
    M.HeaderRoundTrip(M.Header(me, n + 1, M.END_OF_SESSION), []);
  }

  function Only(n: nat): u64 -> bool {
    (q: u64) => q == n
  }

  /** The run in which only the last message is lost: everything else and the end of the
      session are heard, the receiver reports the session ended, has delivered all but the
      last message, and has asked for nothing. */
  lemma LastMessageLost(me: M.SessionId, framed: Bytes)
    requires 1 <= |Blocks(framed)| < TWO_64 - 1
    ensures var n := |Blocks(framed)|;
            var wire := SentBefore(me, Blocks(framed), Only(n), n) + [DataPacket(me, n + 1, M.END_OF_SESSION, [])];
            var s := Run(START, me, HeardAll(wire));
            && s.ended && s.nextSeq == n == |Calls(framed)| && s.log == Calls(framed)[..n - 1]
            && s.requests == [] && s.pending == map[]
  {
    var n := |Blocks(framed)|;
    var sent, end := SentBefore(me, Blocks(framed), Only(n), n), DataPacket(me, n + 1, M.END_OF_SESSION, []);
    BlockIsOneFrame(framed, n - 1);
    SentIsInLine(me, framed, Only(n), n - 1);
    assert sent == SentBefore(me, Blocks(framed), Only(n), n - 1);
    HeardAllSnoc(sent, end);
    RunSnoc(START, me, HeardAll(sent), Arrival(end, []));
    M.HeaderRoundTrip(M.Header(me, n + 1, M.END_OF_SESSION), []);
  }
}

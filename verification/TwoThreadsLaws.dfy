/** What the two-thread system guarantees over every interleaving. */
module TwoThreadsLaws {
  import opened Arith
  import opened Bits
  import opened Seqs
  import opened TwoThreads

  /** The states reached by a list of steps, each of them enabled when it is taken. */
  ghost predicate Reaches<E>(g: Config<E>, s: Sys<E>, acts: seq<Action>, t: Sys<E>)
    requires Inv(g, s)
    decreases |acts|
  {
    if acts == [] then t == s
    else
      Enabled(s, acts[0]) &&
      (StepKeepsInv(g, s, acts[0]);
       Reaches(g, Step(g, s, acts[0]), acts[1..], t))
  }

  lemma {:induction false} ReachedKeepsInv<E>(g: Config<E>, s: Sys<E>, acts: seq<Action>, t: Sys<E>)
    requires Inv(g, s) && Reaches(g, s, acts, t)
    ensures Inv(g, t)
    decreases |acts|
  {
    if acts != [] {
      StepKeepsInv(g, s, acts[0]);
      ReachedKeepsInv(g, Step(g, s, acts[0]), acts[1..], t);
    }
  }

  // ---------------------------------------------------------------- safety

  /** Envelopes pushed and not yet popped, oldest first, as the slots hold them. */
  ghost function InRing<E>(g: Config<E>, s: Sys<E>): seq<E>
    requires Histories(g, s)
  {
    seq(Pushed(s) - Popped(s), i requires 0 <= i < Pushed(s) - Popped(s) => s.buf[(Popped(s) + i) % g.Cap()])
  }

  /** In every reachable state: what was popped followed by what is in the ring is what
      was pushed; the ring never holds more than capacity-1; what was dispatched is a
      prefix of the decoder's output. */
  lemma RingIsFifo<E>(g: Config<E>, s0: Sys<E>, acts: seq<Action>, s: Sys<E>)
    requires Start(g, s0) && g.bits <= 64 && (InvAtStart(g, s0); Reaches(g, s0, acts, s))
    ensures Histories(g, s)
    ensures g.input[..Popped(s)] + InRing(g, s) == g.input[..Pushed(s)]
    ensures |InRing(g, s)| <= g.Cap() - 1 && s.maxOccupancy <= g.Cap() - 1
    ensures s.out <= g.input && Popped(s) - 1 <= |s.out| <= Popped(s)
  {
    assert Inv(g, s) by {
      InvAtStart(g, s0);
      ReachedKeepsInv(g, s0, acts, s);
    }
    RingHoldsTheRest(g, s);
    TakeSplit(g.input, Popped(s), Pushed(s));
  }

  lemma RingHoldsTheRest<E>(g: Config<E>, s: Sys<E>)
    requires Inv(g, s)
    ensures InRing(g, s) == g.input[Popped(s)..Pushed(s)]
  {
    forall i | 0 <= i < Pushed(s) - Popped(s)
      ensures InRing(g, s)[i] == g.input[Popped(s) + i]
    {
      var k := Popped(s) + i;
      assert s.buf[k % g.Cap()] == g.input[k];
    }
  }

  /** No data race: the slot being written is never one that is unread, and never the one
      being read, even though both threads act on stale indices. */
  lemma SlotsAreNotShared<E>(g: Config<E>, s0: Sys<E>, acts: seq<Action>, s: Sys<E>)
    requires Start(g, s0) && g.bits <= 64 && (InvAtStart(g, s0); Reaches(g, s0, acts, s))
    requires s.p == WriteSlot
    ensures forall i | Popped(s) <= i < Pushed(s) :: g.Cap() > 0 && i % g.Cap() != s.pTail
    ensures s.c == ReadSlot ==> s.cHead != s.pTail
  {
    InvAtStart(g, s0);
    ReachedKeepsInv(g, s0, acts, s);
    forall i | Popped(s) <= i < Pushed(s)
      ensures i % g.Cap() != s.pTail
    {
      SameResidue(i, Pushed(s), g.Cap());
    }
  }

  /** Shutdown loses nothing: when the consumer leaves its loop it has dispatched every
      envelope, those pushed after its last failed pop included, and the producer has
      counted every frame. */
  lemma NothingIsLost<E>(g: Config<E>, s0: Sys<E>, acts: seq<Action>, s: Sys<E>)
    requires Start(g, s0) && g.bits <= 64 && (InvAtStart(g, s0); Reaches(g, s0, acts, s))
    requires s.c == ConsumerEnd
    ensures s.p == ProducerEnd && s.out == g.input && s.pFrames == |g.input|
  {
    InvAtStart(g, s0);
    ReachedKeepsInv(g, s0, acts, s);
  }

  // ---------------------------------------------------------------- stale loads do happen

  /** The producer may still see the head it saw before, and turn away from a ring that has
      been emptied since. */
  lemma StaleFullTest<E>(g: Config<E>, s: Sys<E>)
    requires Inv(g, s) && s.p == LoadHead && Pushed(s) + 1 - s.pSaw == g.Cap()
    ensures Enabled(s, P(s.pSaw)) && Step(g, s, P(s.pSaw)).p == LoadTail
  {
    FullTest(g, s, s.pSaw);
  }

  /** The consumer may still see the tail it saw before, and find a ring empty into which
      more has been pushed since; and it may miss a flag that has been set. */
  lemma StaleEmptyTest<E>(g: Config<E>, s: Sys<E>)
    requires Inv(g, s) && !s.draining
    ensures s.c == LoadOtherTail && s.cSaw == Popped(s) ==>
              Enabled(s, C(s.cSaw)) && Step(g, s, C(s.cSaw)).c == LoadDone
    ensures s.c == LoadDone && s.doneSaw == 0 ==>
              Enabled(s, C(0)) && Step(g, s, C(0)).c == LoadOwnHead && !Step(g, s, C(0)).draining
  {
    if s.c == LoadOtherTail && s.cSaw == Popped(s) {
      EmptyTest(g, s, s.cSaw);
    }
  }

  // ---------------------------------------------------------------- occupancy

  /** What each occupancy reading of a run found: envelopes pushed, less the pops the
      producer had seen by then. */
  ghost function Readings<E>(g: Config<E>, s: Sys<E>, acts: seq<Action>, t: Sys<E>): seq<int>
    requires Inv(g, s) && Reaches(g, s, acts, t)
    decreases |acts|
  {
    if acts == [] then []
    else
      StepKeepsInv(g, s, acts[0]);
      ReadingOf(s, acts[0]) + Readings(g, Step(g, s, acts[0]), acts[1..], t)
  }

  ghost predicate IsLargest(xs: seq<int>, start: int, m: int) {
    m >= start && (forall i | 0 <= i < |xs| :: xs[i] <= m) && (m == start || m in xs)
  }

  lemma ProducerReads<E>(g: Config<E>, s: Sys<E>, j: nat)
    requires Inv(g, s) && Enabled(s, P(j)) && s.p == SizeHead
    ensures var u, x := ProducerStep(g, s, j), Pushed(s) - j;
            u.pFrames == s.pFrames + 1 && u.maxOccupancy == if x > s.maxOccupancy then x else s.maxOccupancy
  {
    OccupancyReading(g, s, j);
  }

  lemma ProducerReadsNothing<E>(g: Config<E>, s: Sys<E>, j: nat)
    requires Inv(g, s) && Enabled(s, P(j)) && s.p != SizeHead
    ensures var u := ProducerStep(g, s, j); u.pFrames == s.pFrames && u.maxOccupancy == s.maxOccupancy
  {
  }

  lemma ConsumerReadsNothing<E>(g: Config<E>, s: Sys<E>, j: nat)
    requires Inv(g, s) && Enabled(s, C(j))
    ensures var u := ConsumerStep(g, s, j); u.pFrames == s.pFrames && u.maxOccupancy == s.maxOccupancy
  {
  }

  /** The reading a step takes, if it takes one. */
  ghost function ReadingOf<E>(s: Sys<E>, a: Action): seq<int>
    requires Shaped(s)
  {
    if a.P? && s.p == SizeHead then [Pushed(s) - a.j] else []
  }

  lemma OneStepReads<E>(g: Config<E>, s: Sys<E>, a: Action)
    requires Inv(g, s) && Enabled(s, a)
    ensures var u, rs := Step(g, s, a), ReadingOf(s, a);
            u.pFrames == s.pFrames + |rs| && IsLargest(rs, s.maxOccupancy, u.maxOccupancy)
  {
    match a
    case P(j) =>
      if s.p == SizeHead {
        ProducerReads(g, s, j);
      } else {
        ProducerReadsNothing(g, s, j);
      }
    case C(j) => ConsumerReadsNothing(g, s, j);
  }

  lemma {:induction false} LargestReading<E>(g: Config<E>, s: Sys<E>, acts: seq<Action>, t: Sys<E>)
    requires Inv(g, s) && Reaches(g, s, acts, t)
    ensures var rs := Readings(g, s, acts, t);
            IsLargest(rs, s.maxOccupancy, t.maxOccupancy) && t.pFrames == s.pFrames + |rs|
    decreases |acts|
  {
    if acts != [] {
      var u := Step(g, s, acts[0]);
      StepKeepsInv(g, s, acts[0]);
      OneStepReads(g, s, acts[0]);
      LargestReading(g, u, acts[1..], t);
      LargestConcat(ReadingOf(s, acts[0]), Readings(g, u, acts[1..], t), s.maxOccupancy, u.maxOccupancy,
                    t.maxOccupancy);
    }
  }

  lemma LargestConcat(a: seq<int>, b: seq<int>, start: int, mid: int, m: int)
    requires IsLargest(a, start, mid) && IsLargest(b, mid, m)
    ensures IsLargest(a + b, start, m)
  {
  }

  /** The maximum occupancy reported is the largest reading taken, one reading being taken
      for each frame handed over. */
  lemma MaxOccupancyIsLargest<E>(g: Config<E>, s0: Sys<E>, acts: seq<Action>, s: Sys<E>)
    requires Start(g, s0) && g.bits <= 64 && (InvAtStart(g, s0); Reaches(g, s0, acts, s))
    ensures Inv(g, s0)
    ensures var rs := Readings(g, s0, acts, s); IsLargest(rs, 0, s.maxOccupancy) && s.pFrames == |rs|
  {
    InvAtStart(g, s0);
    LargestReading(g, s0, acts, s);
  }

  // ---------------------------------------------------------------- progress

  predicate Finished<E>(s: Sys<E>) {
    s.p == ProducerEnd && s.c == ConsumerEnd
  }

  /** Steps left on the way through one push. */
  function ProducerRank(p: ProducerAt): nat {
    match p
    case LoadTail => 7
    case LoadHead => 6
    case WriteSlot => 5
    case StoreTail => 4
    case SizeTail => 9
    case SizeHead => 8
    case StoreDone => 1
    case ProducerEnd => 0
  }

  /** Steps left to the next pop, or, with nothing left to pop, to the end. */
  function ConsumerRank<E>(s: Sys<E>): nat
    requires Shaped(s)
  {
    if Popped(s) < Pushed(s) then
      match s.c
      case Dispatching => 6
      case LoadDone => 5
      case LoadOwnHead => 4
      case LoadOtherTail => 3
      case ReadSlot => 2
      case StoreHead => 1
      case ConsumerEnd => 0
    else
      match s.c
      case Dispatching => 6
      case LoadOwnHead => if s.draining then 2 else 5
      case LoadOtherTail => if s.draining then 1 else 4
      case LoadDone => 3
      case _ => 0
  }

  ghost function Measure<E>(g: Config<E>, s: Sys<E>): int
    requires Shaped(s)
  {
    20 * (|g.input| - Pushed(s)) + 20 * (|g.input| - s.handed) + 20 * (|g.input| - Popped(s))
    + (if s.p == ProducerEnd then 0 else 10) + ProducerRank(s.p) + ConsumerRank(s)
  }

  lemma MeasureIsBounded<E>(g: Config<E>, s: Sys<E>)
    requires Inv(g, s)
    ensures Measure(g, s) >= 0
  {
  }

  /** The consumer's next step, observing the newest stores. */
  function FreshC<E>(s: Sys<E>): Action
    requires Shaped(s)
  {
    C(if s.c == LoadDone then |s.dones| - 1 else |s.tails| - 1)
  }

  function FreshP<E>(s: Sys<E>): Action
    requires Shaped(s)
  {
    P(|s.heads| - 1)
  }

  lemma FreshStepsAreEnabled<E>(g: Config<E>, s: Sys<E>)
    requires Inv(g, s)
    ensures s.c != ConsumerEnd ==> Enabled(s, FreshC(s))
    ensures s.p != ProducerEnd ==> Enabled(s, FreshP(s))
  {
  }

  /** Something is queued: the consumer moves towards popping it. */
  lemma ConsumerAdvances<E>(g: Config<E>, s: Sys<E>)
    requires Inv(g, s) && s.c != ConsumerEnd
    requires Popped(s) < Pushed(s) || (s.p == ProducerEnd && Popped(s) == Pushed(s))
    ensures Enabled(s, FreshC(s)) && Measure(g, Step(g, s, FreshC(s))) < Measure(g, s)
  {
    FreshStepsAreEnabled(g, s);
    if s.c == LoadOtherTail {
      ConsumerLooks(g, s);
    } else {
      ConsumerMovesOn(g, s);
    }
  }

  lemma ConsumerLooks<E>(g: Config<E>, s: Sys<E>)
    requires Inv(g, s) && s.c == LoadOtherTail
    requires Popped(s) < Pushed(s) || (s.p == ProducerEnd && Popped(s) == Pushed(s))
    ensures Measure(g, Step(g, s, FreshC(s))) < Measure(g, s)
  {
    EmptyTest(g, s, |s.tails| - 1);
  }

  lemma ConsumerMovesOn<E>(g: Config<E>, s: Sys<E>)
    requires Inv(g, s) && s.c != ConsumerEnd && s.c != LoadOtherTail
    requires Popped(s) < Pushed(s) || (s.p == ProducerEnd && Popped(s) == Pushed(s))
    ensures Measure(g, Step(g, s, FreshC(s))) < Measure(g, s)
  {
  }

  /** Nothing is queued and the ring has room for one: the producer moves on. */
  lemma ProducerAdvances<E>(g: Config<E>, s: Sys<E>)
    requires Inv(g, s) && s.p != ProducerEnd && Popped(s) == Pushed(s) && g.Cap() >= 2
    ensures Enabled(s, FreshP(s)) && Measure(g, Step(g, s, FreshP(s))) < Measure(g, s)
  {
    FreshStepsAreEnabled(g, s);
    if s.p == LoadHead {
      FullTest(g, s, |s.heads| - 1);
    }
  }

  /** No deadlock: with capacity at least 2, in every reachable unfinished state some
      thread has a step that brings the end nearer. */
  lemma SomeThreadAdvances<E>(g: Config<E>, s: Sys<E>) returns (a: Action)
    requires Inv(g, s) && !Finished(s) && g.Cap() >= 2
    ensures Enabled(s, a) && Measure(g, Step(g, s, a)) < Measure(g, s)
  {
    if Popped(s) < Pushed(s) || s.p == ProducerEnd {
      ConsumerAdvances(g, s);
      a := FreshC(s);
    } else {
      ProducerAdvances(g, s);
      a := FreshP(s);
    }
  }

  lemma NearerStep<E>(g: Config<E>, s: Sys<E>) returns (a: Action)
    requires Inv(g, s) && !Finished(s) && g.Cap() >= 2
    ensures Enabled(s, a) && Inv(g, Step(g, s, a)) && 0 <= Measure(g, Step(g, s, a)) < Measure(g, s)
  {
    a := SomeThreadAdvances(g, s);
    StepKeepsInv(g, s, a);
    MeasureIsBounded(g, Step(g, s, a));
  }

  /** Hence every reachable state can still finish. */
  lemma {:induction false} CanAlwaysFinish<E>(g: Config<E>, s: Sys<E>) returns (acts: seq<Action>, t: Sys<E>)
    requires Inv(g, s) && g.Cap() >= 2
    ensures Reaches(g, s, acts, t) && Finished(t)
    decreases Measure(g, s)
  {
    if Finished(s) {
      return [], s;
    }
    var a := NearerStep(g, s);
    var rest;
    rest, t := CanAlwaysFinish(g, Step(g, s, a));
    acts := [a] + rest;
    assert acts[1..] == rest;
  }

  ghost predicate Reachable<E>(g: Config<E>, s0: Sys<E>, s: Sys<E>) {
    Inv(g, s0) && exists acts :: Reaches(g, s0, acts, s)
  }

  lemma AtMostOneDispatched<E>(g: Config<E>, s: Sys<E>, a: Action)
    requires Inv(g, s) && Enabled(s, a)
    ensures |Step(g, s, a).out| <= |s.out| + 1
  {
  }

  /** A run that dispatches more than n envelopes passes through a state that has
      dispatched exactly n. */
  lemma {:induction false} PassesThrough<E>(g: Config<E>, s: Sys<E>, acts: seq<Action>, t: Sys<E>, n: nat)
    returns (pre: seq<Action>, u: Sys<E>)
    requires Inv(g, s) && Reaches(g, s, acts, t) && |s.out| <= n <= |t.out|
    ensures Reaches(g, s, pre, u) && |u.out| == n
    decreases |acts|
  {
    if |s.out| == n {
      return [], s;
    }
    StepKeepsInv(g, s, acts[0]);
    AtMostOneDispatched(g, s, acts[0]);
    var rest;
    rest, u := PassesThrough(g, Step(g, s, acts[0]), acts[1..], t, n);
    pre := [acts[0]] + rest;
    assert pre[1..] == rest;
  }

  /** Every number of dispatched envelopes occurs in some reachable state. */
  lemma EveryCountIsReached<E>(g: Config<E>, s0: Sys<E>, n: nat) returns (u: Sys<E>)
    requires Start(g, s0) && 1 <= g.bits <= 64 && n <= |g.input|
    ensures Reachable(g, s0, u) && |u.out| == n
  {
    InvAtStart(g, s0);
    Pow2Positive(g.bits - 1);
    assert g.Cap() >= 2;
    var acts, t := CanAlwaysFinish(g, s0);
    ReachedKeepsInv(g, s0, acts, t);
    var pre;
    pre, u := PassesThrough(g, s0, acts, t, n);
  }

  /** A ring of capacity 1 is always full: nothing is ever pushed, so with any input at
      all the two threads spin for ever. */
  lemma CapacityOneNeverFinishes<E>(g: Config<E>, s0: Sys<E>, acts: seq<Action>, s: Sys<E>)
    requires Start(g, s0) && g.bits == 0 && g.input != [] && (InvAtStart(g, s0); Reaches(g, s0, acts, s))
    ensures Pushed(s) == 0 && !Finished(s)
  {
    InvAtStart(g, s0);
    ReachedKeepsInv(g, s0, acts, s);
    NeverPushes(g, s0, acts, s);
  }

  lemma {:induction false} NeverPushes<E>(g: Config<E>, s: Sys<E>, acts: seq<Action>, t: Sys<E>)
    requires Inv(g, s) && g.Cap() == 1 && Reaches(g, s, acts, t)
    ensures t.tails == s.tails
    decreases |acts|
  {
    if acts != [] {
      StepKeepsInv(g, s, acts[0]);
      FullRingStepPushesNothing(g, s, acts[0]);
      NeverPushes(g, Step(g, s, acts[0]), acts[1..], t);
    }
  }

  lemma FullRingStepPushesNothing<E>(g: Config<E>, s: Sys<E>, a: Action)
    requires Inv(g, s) && g.Cap() == 1 && Enabled(s, a)
    ensures Step(g, s, a).tails == s.tails
  {
  }
}

/** Every fair run of the two threads ends. A run is infinite: at each moment one thread
    takes a step, or nothing happens. */
module FairRuns {
  import opened TwoThreads
  import opened TwoThreadsLaws

  datatype Move = Move(a: Action) | Rest

  datatype History<!E> = History(g: Config<E>, at: nat -> Sys<E>, moves: nat -> Move)

  ghost predicate Takes<E>(g: Config<E>, s: Sys<E>, m: Move, t: Sys<E>) {
    match m
    case Rest => t == s
    case Move(a) => Inv(g, s) && Enabled(s, a) && t == Step(g, s, a)
  }

  ghost predicate IsRun<E>(h: History<E>) {
    && h.g.bits <= 64 && Start(h.g, h.at(0))
    && forall i: nat :: Takes(h.g, h.at(i), h.moves(i), h.at(i + 1))
  }

  predicate ByProducer(m: Move) {
    m.Move? && m.a.P?
  }

  predicate ByConsumer(m: Move) {
    m.Move? && m.a.C?
  }

  ghost predicate ProducerActs<E>(h: History<E>, i: nat, j: nat) {
    i <= j && (h.at(j).p == ProducerEnd || ByProducer(h.moves(j)))
  }

  ghost predicate ConsumerActs<E>(h: History<E>, i: nat, j: nat) {
    i <= j && (h.at(j).c == ConsumerEnd || ByConsumer(h.moves(j)))
  }

  ghost predicate BothAct<E>(h: History<E>, i: nat) {
    (exists j: nat :: ProducerActs(h, i, j)) && exists j: nat :: ConsumerActs(h, i, j)
  }

  /** A thread that has not ended is scheduled again and again. */
  ghost predicate Fair<E>(h: History<E>) {
    forall i: nat :: BothAct(h, i)
  }

  /** A load in state s observes at least the stores that had been made in state `was`. */
  predicate Sees<E>(was: Sys<E>, s: Sys<E>, m: Move) {
    match m
    case Rest => true
    case Move(P(j)) => s.p == LoadHead || s.p == SizeHead ==> j >= |was.heads| - 1
    case Move(C(j)) =>
      (s.c == LoadOtherTail ==> j >= |was.tails| - 1) && (s.c == LoadDone ==> j >= |was.dones| - 1)
  }

  /** From moment j on, every load observes the stores made by moment i. */
  ghost predicate SeesFrom<E>(h: History<E>, i: nat, j: nat) {
    i <= j && forall k: nat | k >= j :: Sees(h.at(i), h.at(k), h.moves(k))
  }

  ghost predicate EverSeen<E>(h: History<E>, i: nat) {
    exists j: nat :: SeesFrom(h, i, j)
  }

  /** Every store becomes visible to the other thread in finite time. */
  ghost predicate Visible<E>(h: History<E>) {
    forall i: nat :: EverSeen(h, i)
  }

  lemma {:induction false} RunKeepsInv<E>(h: History<E>, i: nat)
    requires IsRun(h)
    ensures Inv(h.g, h.at(i))
  {
    if i == 0 {
      InvAtStart(h.g, h.at(0));
    } else {
      RunKeepsInv(h, i - 1);
      assert Takes(h.g, h.at(i - 1), h.moves(i - 1), h.at(i));
      if h.moves(i - 1).Move? {
        StepKeepsInv(h.g, h.at(i - 1), h.moves(i - 1).a);
      }
    }
  }

  // ---------------------------------------------------------------- what is left to do

  /** Envelopes still to be pushed, counted and popped, and the flag still to be set. */
  ghost function Left<E>(g: Config<E>, s: Sys<E>): int
    requires Shaped(s)
  {
    |g.input| - Pushed(s) + (|g.input| - s.handed) + (|g.input| - Popped(s)) + (if s.p == ProducerEnd then 0 else 1)
  }

  lemma LeftIsBounded<E>(g: Config<E>, s: Sys<E>)
    requires Inv(g, s)
    ensures Left(g, s) >= 0
  {
  }

  /** Two states between which nothing was taken off agree on all stores and the flag. */
  ghost predicate Stalled<E>(s: Sys<E>, t: Sys<E>) {
    && |s.heads| == |t.heads| && |s.tails| == |t.tails| && s.dones == t.dones
    && (s.p == ProducerEnd <==> t.p == ProducerEnd)
  }

  /** Something was taken off what is left, or nothing was stored. */
  ghost predicate Falls<E>(g: Config<E>, s: Sys<E>, t: Sys<E>) {
    Shaped(s) && Shaped(t) && (Left(g, t) < Left(g, s) || (Left(g, t) == Left(g, s) && Stalled(s, t)))
  }

  lemma FallsOn<E>(g: Config<E>, s: Sys<E>, t: Sys<E>, u: Sys<E>)
    requires Falls(g, s, t) && Falls(g, t, u)
    ensures Falls(g, s, u)
  {
  }

  lemma ProducerFalls<E>(g: Config<E>, s: Sys<E>, a: Action)
    requires Inv(g, s) && Enabled(s, a) && a.P?
    ensures var t := Step(g, s, a);
            Falls(g, s, t) && t.c == s.c && t.draining == s.draining
  {
  }

  lemma ConsumerFalls<E>(g: Config<E>, s: Sys<E>, a: Action)
    requires Inv(g, s) && Enabled(s, a) && a.C?
    ensures var t := Step(g, s, a);
            Falls(g, s, t) && t.p == s.p
  {
  }

  /** The consumer has something to do: an envelope to pop, or its own end to reach. */
  predicate ConsumersTurn<E>(s: Sys<E>)
    requires Shaped(s)
  {
    s.c != ConsumerEnd && (Popped(s) < Pushed(s) || s.p == ProducerEnd)
  }

  /** A consumer step that sees all stores takes something off what is left, or brings the
      consumer nearer to doing so. */
  lemma ConsumerNearer<E>(g: Config<E>, s: Sys<E>, a: Action)
    requires Inv(g, s) && Enabled(s, a) && a.C? && ConsumersTurn(s) && Sees(s, s, Move(a))
    ensures var t := Step(g, s, a);
            Shaped(t) && (Left(g, t) < Left(g, s) || ConsumerRank(t) < ConsumerRank(s))
  {
    if s.c == LoadOtherTail {
      EmptyTest(g, s, a.j);
    }
  }

  lemma ProducerNearer<E>(g: Config<E>, s: Sys<E>, a: Action)
    requires Inv(g, s) && Enabled(s, a) && a.P? && Popped(s) == Pushed(s) && g.Cap() >= 2 && Sees(s, s, Move(a))
    ensures var t := Step(g, s, a);
            Shaped(t) && (Left(g, t) < Left(g, s) || ProducerRank(t.p) < ProducerRank(s.p))
  {
    if s.p == LoadHead {
      FullTest(g, s, a.j);
    }
  }

  // ---------------------------------------------------------------- one thing less

  lemma OneMove<E>(h: History<E>, i: nat)
    requires IsRun(h)
    ensures Falls(h.g, h.at(i), h.at(i + 1))
    ensures !ByConsumer(h.moves(i)) ==> h.at(i + 1).c == h.at(i).c && h.at(i + 1).draining == h.at(i).draining
    ensures !ByProducer(h.moves(i)) ==> h.at(i + 1).p == h.at(i).p
  {
    RunKeepsInv(h, i);
    assert Takes(h.g, h.at(i), h.moves(i), h.at(i + 1));
    if ByProducer(h.moves(i)) {
      ProducerFalls(h.g, h.at(i), h.moves(i).a);
    } else if ByConsumer(h.moves(i)) {
      ConsumerFalls(h.g, h.at(i), h.moves(i).a);
    }
  }

  lemma OneMoveOn<E>(h: History<E>, i: nat, k: nat)
    requires IsRun(h) && Falls(h.g, h.at(i), h.at(k))
    ensures Falls(h.g, h.at(i), h.at(k + 1))
  {
    OneMove(h, k);
    FallsOn(h.g, h.at(i), h.at(k), h.at(k + 1));
  }

  lemma FallsNowhere<E>(h: History<E>, i: nat)
    requires IsRun(h)
    ensures Falls(h.g, h.at(i), h.at(i))
  {
    RunKeepsInv(h, i);
  }

  lemma {:induction false} LeftOver<E>(h: History<E>, i: nat, j: nat)
    requires IsRun(h) && i <= j
    ensures Falls(h.g, h.at(i), h.at(j))
    decreases j - i
  {
    if i == j {
      FallsNowhere(h, i);
    } else {
      var k := j - 1;
      LeftOver(h, i, k);
      OneMoveOn(h, i, k);
    }
  }

  /** The consumer's next step from moment k on; until then it stays where it is. */
  lemma {:induction false} NextConsumerStep<E>(h: History<E>, k: nat, last: nat) returns (j: nat)
    requires IsRun(h) && ConsumerActs(h, k, last)
    ensures ConsumerActs(h, k, j) && h.at(j).c == h.at(k).c && h.at(j).draining == h.at(k).draining
    decreases last - k
  {
    if ConsumerActs(h, k, k) {
      return k;
    }
    OneMove(h, k);
    j := NextConsumerStep(h, k + 1, last);
  }

  lemma {:induction false} NextProducerStep<E>(h: History<E>, k: nat, last: nat) returns (j: nat)
    requires IsRun(h) && ProducerActs(h, k, last)
    ensures ProducerActs(h, k, j) && h.at(j).p == h.at(k).p
    decreases last - k
  {
    if ProducerActs(h, k, k) {
      return k;
    }
    OneMove(h, k);
    j := NextProducerStep(h, k + 1, last);
  }

  ghost predicate Progress<E>(h: History<E>, i: nat, j: nat) {
    && i <= j && Shaped(h.at(i)) && Shaped(h.at(j))
    && (Finished(h.at(j)) || Left(h.g, h.at(j)) < Left(h.g, h.at(i)))
  }

  lemma ConsumerStepAt<E>(h: History<E>, i: nat, j: nat)
    requires IsRun(h) && ByConsumer(h.moves(j)) && Stalled(h.at(i), h.at(j)) && Sees(h.at(i), h.at(j), h.moves(j))
    requires Shaped(h.at(j)) && ConsumersTurn(h.at(j))
    ensures var s, t := h.at(j), h.at(j + 1);
            Shaped(t) && (Left(h.g, t) < Left(h.g, s) || ConsumerRank(t) < ConsumerRank(s))
  {
    RunKeepsInv(h, j);
    assert Takes(h.g, h.at(j), h.moves(j), h.at(j + 1));
    ConsumerNearer(h.g, h.at(j), h.moves(j).a);
  }

  lemma ProducerStepAt<E>(h: History<E>, i: nat, j: nat)
    requires IsRun(h) && ByProducer(h.moves(j)) && Stalled(h.at(i), h.at(j)) && Sees(h.at(i), h.at(j), h.moves(j))
    requires Shaped(h.at(j)) && Popped(h.at(j)) == Pushed(h.at(j)) && h.g.Cap() >= 2
    ensures var s, t := h.at(j), h.at(j + 1);
            Shaped(t) && (Left(h.g, t) < Left(h.g, s) || ProducerRank(t.p) < ProducerRank(s.p))
  {
    RunKeepsInv(h, j);
    assert Takes(h.g, h.at(j), h.moves(j), h.at(j + 1));
    ProducerNearer(h.g, h.at(j), h.moves(j).a);
  }

  lemma EndedIsFinished<E>(h: History<E>, j: nat)
    requires IsRun(h) && h.at(j).c == ConsumerEnd
    ensures Finished(h.at(j))
  {
    RunKeepsInv(h, j);
  }

  lemma {:induction false} ConsumerGetsOn<E>(h: History<E>, i: nat, v: nat, k: nat) returns (j: nat)
    requires IsRun(h) && Fair(h) && SeesFrom(h, i, v) && v <= k
    requires Shaped(h.at(k)) && ConsumersTurn(h.at(k))
    ensures Progress(h, i, j)
    decreases var s := h.at(k); ConsumerRank(s)
  {
    LeftOver(h, i, k);
    if Left(h.g, h.at(k)) < Left(h.g, h.at(i)) {
      return k;
    }
    assert BothAct(h, k);
    var last: nat :| ConsumerActs(h, k, last);
    j := NextConsumerStep(h, k, last);
    LeftOver(h, i, j);
    if Left(h.g, h.at(j)) < Left(h.g, h.at(i)) {
      return;
    }
    assert ConsumerRank(h.at(j)) == ConsumerRank(h.at(k));
    ConsumerStepAt(h, i, j);
    LeftOver(h, i, j + 1);
    if Left(h.g, h.at(j + 1)) < Left(h.g, h.at(i)) {
      return j + 1;
    }
    if h.at(j + 1).c == ConsumerEnd {
      EndedIsFinished(h, j + 1);
      return j + 1;
    }
    j := ConsumerGetsOn(h, i, v, j + 1);
  }

  lemma {:induction false} ProducerGetsOn<E>(h: History<E>, i: nat, v: nat, k: nat) returns (j: nat)
    requires IsRun(h) && Fair(h) && SeesFrom(h, i, v) && v <= k && h.g.Cap() >= 2
    requires Shaped(h.at(k)) && Popped(h.at(k)) == Pushed(h.at(k)) && h.at(k).p != ProducerEnd
    ensures Progress(h, i, j)
    decreases ProducerRank(h.at(k).p)
  {
    LeftOver(h, i, k);
    if Left(h.g, h.at(k)) < Left(h.g, h.at(i)) {
      return k;
    }
    assert BothAct(h, k);
    var last: nat :| ProducerActs(h, k, last);
    j := NextProducerStep(h, k, last);
    LeftOver(h, i, j);
    if Left(h.g, h.at(j)) < Left(h.g, h.at(i)) {
      return;
    }
    ProducerStepAt(h, i, j);
    LeftOver(h, i, j + 1);
    if Left(h.g, h.at(j + 1)) < Left(h.g, h.at(i)) {
      return j + 1;
    }
    j := ProducerGetsOn(h, i, v, j + 1);
  }

  lemma GetsOn<E>(h: History<E>, i: nat) returns (j: nat)
    requires IsRun(h) && Fair(h) && Visible(h) && h.g.Cap() >= 2
    ensures Progress(h, i, j)
  {
    assert EverSeen(h, i);
    var v: nat :| SeesFrom(h, i, v);
    LeftOver(h, i, v);
    if Finished(h.at(v)) {
      return v;
    }
    RunKeepsInv(h, v);
    if ConsumersTurn(h.at(v)) {
      j := ConsumerGetsOn(h, i, v, v);
    } else {
      j := ProducerGetsOn(h, i, v, v);
    }
  }

  lemma {:induction false} FinishesFrom<E>(h: History<E>, i: nat) returns (j: nat)
    requires IsRun(h) && Fair(h) && Visible(h) && h.g.Cap() >= 2 && Shaped(h.at(i))
    ensures Finished(h.at(j))
    decreases Left(h.g, h.at(i))
  {
    RunKeepsInv(h, i);
    LeftIsBounded(h.g, h.at(i));
    j := GetsOn(h, i);
    if !Finished(h.at(j)) {
      RunKeepsInv(h, j);
      LeftIsBounded(h.g, h.at(j));
      j := FinishesFrom(h, j);
    }
  }

  /** With capacity at least 2, every run in which each unended thread is scheduled again
      and again and every store becomes visible in finite time finishes, however stale the
      loads are until then; and everything has been dispatched. */
  lemma EveryFairRunFinishes<E>(h: History<E>) returns (j: nat)
    requires IsRun(h) && Fair(h) && Visible(h) && h.g.Cap() >= 2
    ensures Finished(h.at(j)) && h.at(j).out == h.g.input
  {
    RunKeepsInv(h, 0);
    j := FinishesFrom(h, 0);
    RunKeepsInv(h, j);
  }
}

/** Time-sliced execution: an even schedule fixed at construction, emitted bin by bin. */
module Twaps {
  import opened Machine
  import opened Arith
  import opened BookSpec
  import opened ChildOrders
  import opened Seqs

  const MAX_SCHEDULE_BINS: nat := 512

  datatype Params = Params(
    side: Side, totalShares: u32, startTs: u64, endTs: u64, binNs: u64, childType: OrderType, limitPrice: u32)

  /** `(span + bin_ns - 1) / bin_ns` in 64-bit arithmetic. */
  function BinCount(p: Params): nat
    requires p.startTs < p.endTs && p.binNs > 0
  {
    (p.endTs - p.startTs + p.binNs - 1) % TWO_64 / p.binNs
  }

  /** Exactly the parameters the constructor does not throw on. */
  predicate Accepted(p: Params) {
    p.startTs < p.endTs && p.binNs > 0 && 1 <= BinCount(p) <= MAX_SCHEDULE_BINS
  }

  /** n is the span divided by the bin, rounded up. */
  predicate IsCeiling(p: Params, n: nat) {
    n >= 1 && (n - 1) * p.binNs < p.endTs - p.startTs <= n * p.binNs
  }

  /** The constructor's demands in one line each: a window, a bin, a sum that fits 64 bits,
      and at most 512 bins to cover the window. */
  lemma AcceptedIff(p: Params)
    ensures Accepted(p) <==>
              && p.startTs < p.endTs && p.binNs > 0
              && p.endTs - p.startTs + p.binNs - 1 < 0x1_0000_0000_0000_0000
              && p.endTs - p.startTs <= 512 * p.binNs
  {
    if p.startTs < p.endTs && p.binNs > 0 && p.endTs - p.startTs + p.binNs - 1 < TWO_64 {
      var n := BinCount(p);
      BinCountIsExact(p);
      if n <= 512 {
        MulLe(n, 512, p.binNs);
      } else {
        MulLe(512, n - 1, p.binNs);
      }
    } else if p.startTs < p.endTs && p.binNs > 0 {
      BinCountIsExact(p);
    }
  }

  /** A wrapped sum always gives no bins, and so is rejected; an unwrapped one gives
      exactly the ceiling. */
  lemma BinCountIsExact(p: Params)
    requires p.startTs < p.endTs && p.binNs > 0
    ensures if p.endTs - p.startTs + p.binNs - 1 >= TWO_64 then BinCount(p) == 0 else IsCeiling(p, BinCount(p))
  {
    var span, d := p.endTs - p.startTs, p.binNs;
    var x := span + d - 1;
    if x >= TWO_64 {
      QuotientUnique(x, TWO_64, 1, x - TWO_64);
      QuotientUnique(x - TWO_64, d, 0, x - TWO_64);
    } else {
      SmallMod(x, TWO_64);
      CeilingBounds(span, d);
    }
  }

  lemma CeilingBounds(span: nat, d: nat)
    requires span > 0 && d > 0
    ensures var n := (span + d - 1) / d; n >= 1 && (n - 1) * d < span <= n * d
  {
    var x := span + d - 1;
    DivFloor(x, d);
    DivMonotone(d, x, d);
    QuotientUnique(d, d, 1, 0);
    MulSub(x / d, 1, d);
  }

  // ---------------------------------------------------------------- schedule

  /** Shares due at bin i of n: the quotient, plus one for the first `remainder` bins. */
  function EvenShare(total: nat, n: nat, i: nat): nat
    requires n > 0
  {
    total / n + (if i < total % n then 1 else 0)
  }

  lemma EvenShareFits(total: nat, n: nat, i: nat)
    requires n > 0
    ensures EvenShare(total, n, i) <= total
  {
    DivFloor(total, n);
    var q := total / n;
    MulLe(1, n, q);
  }

  function EvenBefore(total: nat, n: nat, k: nat): nat
    requires n > 0
  {
    if k == 0 then 0 else EvenBefore(total, n, k - 1) + EvenShare(total, n, k - 1)
  }

  lemma {:induction false} EvenSoFar(total: nat, n: nat, k: nat)
    requires n > 0
    ensures EvenBefore(total, n, k) == k * (total / n) + Min(k, total % n)
    decreases k
  {
    if k > 0 {
      EvenSoFar(total, n, k - 1);
      MulAdd(k - 1, 1, total / n);
    }
  }

  /** The boundary compared with the clock, modulo 2^64. */
  function Boundary(p: Params, i: nat): u64 {
    (p.startTs + (i + 1) * p.binNs) % TWO_64
  }

  ghost predicate NeverEarly(p: Params, i: nat, now: u64) {
    Boundary(p, i) <= now ==> p.startTs + (i + 1) * p.binNs <= now
  }

  /** A bin is never released early exactly when its boundary does not wrap. */
  lemma NeverEarlyIff(p: Params, i: nat)
    ensures (forall now: u64 :: NeverEarly(p, i, now)) <==> p.startTs + (i + 1) * p.binNs < TWO_64
  {
    MulLe(0, i + 1, p.binNs);
    var x := p.startTs + (i + 1) * p.binNs;
    if x < TWO_64 {
      SmallMod(x, TWO_64);
    } else {
      assert !NeverEarly(p, i, Boundary(p, i));
    }
  }

  /** Only the last bin of an accepted schedule can wrap: every other one ends before the
      parent order does. */
  lemma EarlierBinsNeverWrap(p: Params, i: nat)
    requires Accepted(p) && i + 1 < BinCount(p)
    ensures p.startTs + (i + 1) * p.binNs < p.endTs && Boundary(p, i) == p.startTs + (i + 1) * p.binNs
  {
    BinCountIsExact(p);
    MulLe(i + 1, BinCount(p) - 1, p.binNs);
    MulLe(0, i + 1, p.binNs);
    SmallMod(p.startTs + (i + 1) * p.binNs, TWO_64);
  }

  /** A schedule the constructor accepts and whose last bin is due at time 0. */
  lemma AcceptedAndEarly()
    ensures var p := Params(BUY, 10, (TWO_64 - 10) as u64, (TWO_64 - 1) as u64, 5, Limit, 0);
            Accepted(p) && BinCount(p) == 2 && Boundary(p, 1) == 0
  {
  }

  /** The schedule: shares due and boundary of every bin. */
  datatype Plan = Plan(params: Params, shares: seq<u32>, boundaries: seq<u64>)

  function PlanOf(p: Params): (q: Plan)
    requires Accepted(p)
    ensures q.params == p && |q.shares| == |q.boundaries| == BinCount(p)
  {
    var n := BinCount(p);
    Plan(p,
         seq(n, i requires 0 <= i < n => EvenShareFits(p.totalShares, n, i); EvenShare(p.totalShares, n, i) as u32),
         seq(n, i requires 0 <= i < n => Boundary(p, i)))
  }

  function Sum(s: seq<u32>): nat {
    if s == [] then 0 else Sum(s[..|s| - 1]) + s[|s| - 1]
  }

  lemma {:induction false} PlanSoFar(p: Params, k: nat)
    requires Accepted(p) && k <= BinCount(p)
    ensures Sum(PlanOf(p).shares[..k]) == EvenBefore(p.totalShares, BinCount(p), k)
    decreases k
  {
    if k > 0 {
      PlanSoFar(p, k - 1);
      assert PlanOf(p).shares[..k][..k - 1] == PlanOf(p).shares[..k - 1];
    }
  }

  /** The schedule loses no share to rounding. */
  lemma ScheduleSums(p: Params)
    requires Accepted(p)
    ensures Sum(PlanOf(p).shares) == p.totalShares
  {
    var n := BinCount(p);
    PlanSoFar(p, n);
    assert PlanOf(p).shares[..n] == PlanOf(p).shares;
    EvenSoFar(p.totalShares, n, n);
    DivFloor(p.totalShares, n);
  }

  /** No bin gets over one share more than another, and the larger ones come first. With
      the sum this fixes the schedule. */
  lemma ScheduleIsEven(p: Params, i: nat, j: nat)
    requires Accepted(p) && i <= j < BinCount(p)
    ensures 0 <= PlanOf(p).shares[i] - PlanOf(p).shares[j] <= 1
  {
  }

  // ---------------------------------------------------------------- emission

  function ChildFor(q: Plan, i: nat, now: u64): ChildOrder
    requires i < |q.shares|
  {
    ChildOrder(now, q.params.side, q.params.childType,
               if q.params.childType == Limit then q.params.limitPrice else 0, q.shares[i])
  }

  /** The children one `advance` pushes from bin `next` with `room` left in the queue. */
  function Released(q: Plan, next: nat, room: nat, now: u64): (os: seq<ChildOrder>)
    requires |q.shares| == |q.boundaries| && next <= |q.shares|
    ensures next + |os| <= |q.shares| && |os| <= room
    decreases |q.shares| - next
  {
    if next == |q.shares| || q.boundaries[next] > now || room == 0 then []
    else [ChildFor(q, next, now)] + Released(q, next + 1, room - 1, now)
  }

  class Twap {
    const params: Params
    const schedule: array<u32>
    const binCount: nat
    var nextBin: nat
    const queue: ChildOrderQueue
    ghost const plan: Plan

    ghost predicate Valid()
      reads this, schedule, queue
    {
      && plan.params == params && |plan.shares| == |plan.boundaries| == binCount
      && nextBin <= binCount <= schedule.Length && schedule[..binCount] == plan.shares
      && (forall i | 0 <= i < binCount :: plan.boundaries[i] == Boundary(params, i))
      && queue.Valid()
    }

    /** Null stands for the exception. */
    static method Create(p: Params) returns (t: Twap?)
      ensures t == null <==> !Accepted(p)
      ensures t != null ==> t.Valid() && t.plan == PlanOf(p) && t.nextBin == 0 && t.queue.Items() == []
    {
      if p.startTs >= p.endTs {
        return null;
      }
      if p.binNs == 0 {
        return null;
      }
      var bins := BinCount(p);
      if bins == 0 || bins > MAX_SCHEDULE_BINS {
        return null;
      }
      t := new Twap(p);
    }

    constructor (p: Params)
      requires Accepted(p)
      ensures Valid() && plan == PlanOf(p) && nextBin == 0 && queue.Items() == []
      ensures fresh(queue) && fresh(queue.buf)
    {
      params, binCount, nextBin, plan := p, BinCount(p), 0, PlanOf(p);
      schedule := new u32[MAX_SCHEDULE_BINS](_ => 0);
      queue := new ChildOrderQueue();
      new;
      var base, remainder := p.totalShares / binCount, p.totalShares % binCount;
      var i := 0;
      while i < binCount
        invariant 0 <= i <= binCount <= schedule.Length
        invariant schedule[..i] == plan.shares[..i]
        modifies schedule
      {
        EvenShareFits(p.totalShares, binCount, i);
        schedule[i] := base + (if i < remainder then 1 else 0);
        i := i + 1;
      }
    }

    /** Pushes one child for every bin whose boundary has been crossed, while the queue
        has room. */
    method Advance(now: u64) returns (pushed: nat)
      requires Valid()
      modifies this`nextBin, queue`size, queue.buf
      ensures Valid() && nextBin == old(nextBin) + pushed
      ensures var os := Released(plan, old(nextBin), MAX_CHILD_ORDERS - |old(queue.Items())|, now);
              pushed == |os| && queue.Items() == old(queue.Items()) + os
    {
      pushed := 0;
      ghost var q := plan;
      ghost var all := old(queue.Items()) + Released(q, nextBin, MAX_CHILD_ORDERS - queue.size, now);
      while nextBin < binCount
        invariant Valid() && nextBin == old(nextBin) + pushed
        invariant queue.Items() + Released(q, nextBin, MAX_CHILD_ORDERS - queue.size, now) == all
        invariant |queue.Items()| == |old(queue.Items())| + pushed
        decreases binCount - nextBin
      {
        var boundary := Boundary(params, nextBin);
        assert boundary == q.boundaries[nextBin];
        if boundary > now {
          break;
        }
        if queue.size >= MAX_CHILD_ORDERS {
          break;
        }
        ReleaseNext(now);
        pushed := pushed + 1;
      }
      assert Released(q, nextBin, MAX_CHILD_ORDERS - queue.size, now) == [];
    }

    /** One round of the loop: what is still to be released is one child less. */
    method ReleaseNext(now: u64)
      requires Valid() && nextBin < binCount && plan.boundaries[nextBin] <= now && |queue.Items()| < MAX_CHILD_ORDERS
      modifies this`nextBin, queue`size, queue.buf
      ensures Valid() && nextBin == old(nextBin) + 1 && queue.size == old(queue.size) + 1
      ensures queue.Items() + Released(plan, nextBin, MAX_CHILD_ORDERS - queue.size, now)
           == old(queue.Items() + Released(plan, nextBin, MAX_CHILD_ORDERS - queue.size, now))
    {
      ReleaseOne(plan, nextBin, MAX_CHILD_ORDERS - queue.size, now, queue.Items());
      PushNext(now);
    }

    method PushNext(now: u64)
      requires Valid() && nextBin < binCount && |queue.Items()| < MAX_CHILD_ORDERS
      modifies this`nextBin, queue`size, queue.buf
      ensures Valid() && nextBin == old(nextBin) + 1
      ensures queue.Items() == old(queue.Items()) + [ChildFor(plan, old(nextBin), now)]
    {
      assert schedule[nextBin] == schedule[..binCount][nextBin];
      var _ := queue.Push(ChildOrder(now, params.side, params.childType,
                                     if params.childType == Limit then params.limitPrice else 0, schedule[nextBin]));
      nextBin := nextBin + 1;
    }
  }

  lemma ReleaseOne(q: Plan, next: nat, room: nat, now: u64, items: seq<ChildOrder>)
    requires |q.shares| == |q.boundaries| && next < |q.shares| && q.boundaries[next] <= now && room > 0
    ensures items + Released(q, next, room, now)
         == (items + [ChildFor(q, next, now)]) + Released(q, next + 1, room - 1, now)
  {
  }

  // ---------------------------------------------------------------- runs

  /** What a driver does between constructing a strategy and the end of the day: advance
      the clock, or empty the queue. */
  datatype Event = Advance(now: u64) | Clear

  datatype Run = Run(next: nat, queued: nat, emitted: seq<ChildOrder>)

  function After(q: Plan, r: Run, e: Event): (r': Run)
    requires |q.shares| == |q.boundaries| && r.next <= |q.shares| && r.queued <= MAX_CHILD_ORDERS
    ensures r'.next <= |q.shares| && r'.queued <= MAX_CHILD_ORDERS
  {
    match e
    case Clear => r.(queued := 0)
    case Advance(now) =>
      var os := Released(q, r.next, MAX_CHILD_ORDERS - r.queued, now);
      Run(r.next + |os|, r.queued + |os|, r.emitted + os)
  }

  function RunAll(q: Plan, es: seq<Event>): (r: Run)
    requires |q.shares| == |q.boundaries|
    ensures r.next <= |q.shares| && r.queued <= MAX_CHILD_ORDERS
    decreases |es|
  {
    if es == [] then Run(0, 0, []) else After(q, RunAll(q, es[..|es| - 1]), es[|es| - 1])
  }

  /** The children carry these share counts, one each, in this order. */
  ghost predicate Carry(os: seq<ChildOrder>, shares: seq<u32>) {
    |os| == |shares| && forall i | 0 <= i < |os| :: os[i].shares == shares[i]
  }

  lemma {:induction false} ReleasedCarry(q: Plan, next: nat, room: nat, now: u64)
    requires |q.shares| == |q.boundaries| && next <= |q.shares|
    ensures var os := Released(q, next, room, now);
            Carry(os, q.shares[next..next + |os|])
    decreases |q.shares| - next
  {
    if next < |q.shares| && q.boundaries[next] <= now && room > 0 {
      ReleasedCarry(q, next + 1, room - 1, now);
      var rest := Released(q, next + 1, room - 1, now);
      CarryConcat([ChildFor(q, next, now)], [q.shares[next]], rest, q.shares[next + 1..next + 1 + |rest|]);
      assert q.shares[next..next + 1 + |rest|] == [q.shares[next]] + q.shares[next + 1..next + 1 + |rest|];
    }
  }

  /** A child whose bin has really ended. */
  ghost predicate OnTime(p: Params, i: nat, o: ChildOrder) {
    p.startTs + (i + 1) * p.binNs <= o.ts
  }

  ghost predicate AllOnTime(p: Params, first: nat, os: seq<ChildOrder>) {
    forall k | 0 <= k < |os| :: OnTime(p, first + k, os[k])
  }

  lemma {:induction false} ReleasedOnTime(p: Params, next: nat, room: nat, now: u64)
    requires Accepted(p) && next <= BinCount(p)
    requires p.startTs + BinCount(p) * p.binNs < TWO_64
    ensures AllOnTime(p, next, Released(PlanOf(p), next, room, now))
    decreases BinCount(p) - next
  {
    var q := PlanOf(p);
    if next < BinCount(p) && q.boundaries[next] <= now && room > 0 {
      ReleasedOnTime(p, next + 1, room - 1, now);
      MulLe(next + 1, BinCount(p), p.binNs);
      NeverEarlyIff(p, next);
      assert NeverEarly(p, next, now);
      var rest := Released(q, next + 1, room - 1, now);
      forall k | 0 <= k < |rest| + 1
        ensures OnTime(p, next + k, ([ChildFor(q, next, now)] + rest)[k])
      {
        if k > 0 {
          assert OnTime(p, next + 1 + (k - 1), rest[k - 1]);
        }
      }
    }
  }

  lemma {:induction false} RunOnTime(p: Params, es: seq<Event>)
    requires Accepted(p) && p.startTs + BinCount(p) * p.binNs < TWO_64
    ensures var r := RunAll(PlanOf(p), es);
            |r.emitted| == r.next && AllOnTime(p, 0, r.emitted)
    decreases |es|
  {
    if es != [] {
      var n := |es| - 1;
      var r := RunAll(PlanOf(p), es[..n]);
      RunOnTime(p, es[..n]);
      if es[n].Advance? {
        var os := Released(PlanOf(p), r.next, MAX_CHILD_ORDERS - r.queued, es[n].now);
        ReleasedOnTime(p, r.next, MAX_CHILD_ORDERS - r.queued, es[n].now);
        forall k | 0 <= k < |r.emitted| + |os|
          ensures OnTime(p, k, (r.emitted + os)[k])
        {
          if k >= |r.emitted| {
            assert OnTime(p, r.next + (k - r.next), os[k - r.next]);
          } else {
            assert OnTime(p, 0 + k, r.emitted[k]);
          }
        }
      }
    }
  }

  lemma {:induction false} AllReleased(q: Plan, next: nat, room: nat, now: u64)
    requires |q.shares| == |q.boundaries| && next <= |q.shares| && |q.shares| - next <= room
    requires forall i | next <= i < |q.shares| :: q.boundaries[i] <= now
    ensures var os := Released(q, next, room, now);
            |os| == |q.shares| - next && forall k | 0 <= k < |os| :: os[k].ts == now
    decreases |q.shares| - next
  {
    if next < |q.shares| {
      AllReleased(q, next + 1, room - 1, now);
    }
  }

  /** With a wrapped last boundary, one look at the clock when the parent order ends
      already releases the last bin, before its time. */
  lemma WrappedIsEarly(p: Params)
    requires Accepted(p) && p.startTs + BinCount(p) * p.binNs >= TWO_64
    ensures var r := RunAll(PlanOf(p), [Advance(p.endTs)]);
            |r.emitted| == BinCount(p) && !OnTime(p, BinCount(p) - 1, r.emitted[BinCount(p) - 1])
  {
    var q, n := PlanOf(p), BinCount(p);
    BinCountIsExact(p);
    forall i | 0 <= i < n
      ensures q.boundaries[i] <= p.endTs
    {
      if i + 1 < n {
        EarlierBinsNeverWrap(p, i);
      } else {
        MulAdd(n - 1, 1, p.binNs);
        var x := p.startTs + n * p.binNs;
        SmallMod(x - TWO_64, TWO_64);
        FullTurn(x - TWO_64, TWO_64);
      }
    }
    AllReleased(q, 0, MAX_CHILD_ORDERS, p.endTs);
    assert [Advance(p.endTs)][..0] == [];
    assert RunAll(q, [Advance(p.endTs)]) == After(q, RunAll(q, []), Advance(p.endTs));
  }

  /** The exact condition, on the constructor's arguments alone: no run of an accepted
      schedule ever releases a bin before it has ended, if and only if the end of the last
      bin is below 2^64. */
  lemma ScheduleOnTimeIff(p: Params)
    requires Accepted(p)
    ensures (forall es: seq<Event> :: AllOnTime(p, 0, RunAll(PlanOf(p), es).emitted))
            <==> p.startTs + BinCount(p) * p.binNs < TWO_64
  {
    if p.startTs + BinCount(p) * p.binNs < TWO_64 {
      forall es: seq<Event>
        ensures AllOnTime(p, 0, RunAll(PlanOf(p), es).emitted)
      {
        RunOnTime(p, es);
      }
    } else {
      WrappedIsEarly(p);
      var r := RunAll(PlanOf(p), [Advance(p.endTs)]);
      var n := BinCount(p);
      assert !OnTime(p, 0 + (n - 1), r.emitted[n - 1]);
      assert !AllOnTime(p, 0, r.emitted);
    }
  }

  /** A child of this parent: its side and type, and its limit price or, at the market, 0. */
  ghost predicate ChildOf(p: Params, o: ChildOrder) {
    o.side == p.side && o.kind == p.childType && o.price == (if p.childType.Limit? then p.limitPrice else 0)
  }

  ghost predicate AllChildren(p: Params, os: seq<ChildOrder>) {
    forall k | 0 <= k < |os| :: ChildOf(p, os[k])
  }

  lemma {:induction false} ReleasedAreChildren(q: Plan, next: nat, room: nat, now: u64)
    requires |q.shares| == |q.boundaries| && next <= |q.shares|
    ensures AllChildren(q.params, Released(q, next, room, now))
    decreases |q.shares| - next
  {
    if next < |q.shares| && q.boundaries[next] <= now && room > 0 {
      ReleasedAreChildren(q, next + 1, room - 1, now);
      assert ChildOf(q.params, ChildFor(q, next, now));
    }
  }

  lemma {:induction false} EmittedAreChildren(q: Plan, es: seq<Event>)
    requires |q.shares| == |q.boundaries|
    ensures AllChildren(q.params, RunAll(q, es).emitted)
    decreases |es|
  {
    if es != [] {
      var n := |es| - 1;
      var r := RunAll(q, es[..n]);
      EmittedAreChildren(q, es[..n]);
      if es[n].Advance? {
        ReleasedAreChildren(q, r.next, MAX_CHILD_ORDERS - r.queued, es[n].now);
      }
    }
  }

  predicate BinEnded(p: Params, i: nat, now: u64) {
    p.startTs + (i + 1) * p.binNs <= now
  }

  /** Bins end one after the other. */
  lemma EarlierEnded(p: Params, i: nat, j: nat, now: u64)
    requires i <= j && BinEnded(p, j, now)
    ensures BinEnded(p, i, now)
  {
    MulLe(i + 1, j + 1, p.binNs);
  }

  lemma BoundaryIsEnd(p: Params, i: nat, now: u64)
    requires Accepted(p) && i < BinCount(p) && p.startTs + BinCount(p) * p.binNs < TWO_64
    ensures Boundary(p, i) <= now <==> BinEnded(p, i, now)
  {
    MulLe(i + 1, BinCount(p), p.binNs);
    MulLe(0, i + 1, p.binNs);
    SmallMod(p.startTs + (i + 1) * p.binNs, TWO_64);
  }

  lemma {:induction false} ReleasedAreDue(p: Params, next: nat, room: nat, now: u64)
    requires Accepted(p) && next <= BinCount(p) && p.startTs + BinCount(p) * p.binNs < TWO_64
    requires BinCount(p) - next <= room
    ensures var n := next + |Released(PlanOf(p), next, room, now)|;
            (n > next ==> BinEnded(p, n - 1, now)) && (n < BinCount(p) ==> !BinEnded(p, n, now))
    decreases BinCount(p) - next
  {
    if next < BinCount(p) {
      BoundaryIsEnd(p, next, now);
      if BinEnded(p, next, now) {
        ReleasedAreDue(p, next + 1, room - 1, now);
      }
    }
  }

  /** On time also means not late: with an empty queue, one look at the clock leaves out
      exactly the bins that were out and those that have ended. */
  lemma ReleasesWhatIsDue(p: Params, r: Run, now: u64)
    requires Accepted(p) && p.startTs + BinCount(p) * p.binNs < TWO_64
    requires r.next <= BinCount(p) && r.queued == 0
    ensures var r' := After(PlanOf(p), r, Advance(now));
            forall i: nat | i < BinCount(p) :: i < r'.next <==> i < r.next || BinEnded(p, i, now)
  {
    var r' := After(PlanOf(p), r, Advance(now));
    BinsFitTheQueue(p);
    ReleasedAreDue(p, r.next, MAX_CHILD_ORDERS, now);
    forall i: nat | i < BinCount(p)
      ensures i < r'.next <==> i < r.next || BinEnded(p, i, now)
    {
      if i >= r'.next && BinEnded(p, i, now) {
        EarlierEnded(p, r'.next, i, now);
      } else if r.next <= i < r'.next {
        EarlierEnded(p, i, r'.next - 1, now);
      }
    }
  }

  lemma BinsFitTheQueue(p: Params)
    requires Accepted(p)
    ensures BinCount(p) <= MAX_CHILD_ORDERS
  {
  }

  lemma CarryConcat(a: seq<ChildOrder>, s: seq<u32>, b: seq<ChildOrder>, t: seq<u32>)
    requires Carry(a, s) && Carry(b, t)
    ensures Carry(a + b, s + t)
  {
  }

  ghost predicate InOrder(q: Plan, r: Run) {
    r.next <= |q.shares| && r.queued <= MAX_CHILD_ORDERS && Carry(r.emitted, q.shares[..r.next])
  }

  lemma CarryOn(q: Plan, r: Run, os: seq<ChildOrder>)
    requires InOrder(q, r) && r.next + |os| <= |q.shares| && Carry(os, q.shares[r.next..r.next + |os|])
    ensures Carry(r.emitted + os, q.shares[..r.next + |os|])
  {
    CarryConcat(r.emitted, q.shares[..r.next], os, q.shares[r.next..r.next + |os|]);
    TakeSplit(q.shares, r.next, r.next + |os|);
  }

  lemma AdvanceInOrder(q: Plan, r: Run, now: u64)
    requires |q.shares| == |q.boundaries| && InOrder(q, r)
    ensures InOrder(q, After(q, r, Advance(now)))
  {
    var room := MAX_CHILD_ORDERS - r.queued;
    ReleasedCarry(q, r.next, room, now);
    CarryOn(q, r, Released(q, r.next, room, now));
  }

  lemma {:induction false} EmitsInOrder(q: Plan, es: seq<Event>)
    requires |q.shares| == |q.boundaries|
    ensures InOrder(q, RunAll(q, es))
    decreases |es|
  {
    if es != [] {
      var n := |es| - 1;
      EmitsInOrder(q, es[..n]);
      if es[n].Advance? {
        AdvanceInOrder(q, RunAll(q, es[..n]), es[n].now);
      }
    }
  }

  lemma {:induction false} CarriedTotal(os: seq<ChildOrder>, shares: seq<u32>)
    requires Carry(os, shares)
    ensures TotalShares(os) == Sum(shares)
    decreases |os|
  {
    if os != [] {
      CarriedTotal(os[..|os| - 1], shares[..|os| - 1]);
    }
  }

  /** Over any run of clock advances, queue fills and clears: each bin has been emitted
      exactly once, in order, with its scheduled shares; and once all bins are out the
      emitted shares are the parent order. */
  lemma EmitsEachBinOnce(p: Params, es: seq<Event>)
    requires Accepted(p)
    ensures var q := PlanOf(p);
            var r := RunAll(q, es);
            && r.next <= BinCount(p) && Carry(r.emitted, q.shares[..r.next])
            && TotalShares(r.emitted) == Sum(q.shares[..r.next])
            && (r.next == BinCount(p) ==> TotalShares(r.emitted) == p.totalShares)
            && AllChildren(p, r.emitted)
  {
    var q := PlanOf(p);
    var r := RunAll(q, es);
    EmitsInOrder(q, es);
    EmittedAreChildren(q, es);
    CarriedTotal(r.emitted, q.shares[..r.next]);
    ScheduleSums(p);
    assert q.shares[..|q.shares|] == q.shares;
  }

  /** The strategy stands where the run does after the first i events. */
  ghost predicate AtEvent(t: Twap, es: seq<Event>, i: nat, pushed: seq<ChildOrder>)
    reads t, t.queue
  {
    && i <= |es| && |t.plan.shares| == |t.plan.boundaries|
    && var r := RunAll(t.plan, es[..i]);
       r.next == t.nextBin && r.queued == t.queue.size && r.emitted == pushed
  }

  /** The strategy itself, driven through any such events: what comes out of its queue is
      what the run emits. */
  method Drive(p: Params, es: seq<Event>) returns (pushed: seq<ChildOrder>, done: nat)
    requires Accepted(p)
    ensures var r := RunAll(PlanOf(p), es); pushed == r.emitted && done == r.next
  {
    var t := new Twap(p);
    pushed := [];
    var i := 0;
    while i < |es|
      invariant 0 <= i <= |es| && t.Valid() && t.plan == PlanOf(p)
      invariant fresh(t) && fresh(t.queue) && fresh(t.queue.buf)
      invariant AtEvent(t, es, i, pushed)
    {
      pushed := Happen(t, es, i, pushed);
      i := i + 1;
    }
    assert es[..i] == es;
    done := t.nextBin;
  }

  /** One event at the strategy; the children it pushed are added to those before. */
  method Happen(t: Twap, es: seq<Event>, i: nat, before: seq<ChildOrder>) returns (pushed: seq<ChildOrder>)
    requires t.Valid() && i < |es| && AtEvent(t, es, i, before)
    modifies t`nextBin, t.queue`size, t.queue.buf
    ensures t.Valid() && AtEvent(t, es, i + 1, pushed)
  {
    assert es[..i + 1][..i] == es[..i];
    match es[i] {
      case Clear =>
        t.queue.Clear();
        pushed := before;
      case Advance(now) =>
        var more := LookAtClock(t, now);
        pushed := before + more;
    }
  }

  method LookAtClock(t: Twap, now: u64) returns (pushed: seq<ChildOrder>)
    requires t.Valid()
    modifies t`nextBin, t.queue`size, t.queue.buf
    ensures t.Valid() && t.nextBin == old(t.nextBin) + |pushed|
    ensures t.queue.size == old(t.queue.size) + |pushed|
    ensures pushed == Released(t.plan, old(t.nextBin), MAX_CHILD_ORDERS - old(t.queue.size), now)
  {
    var before := t.queue.size;
    var _ := t.Advance(now);
    pushed := t.queue.buf[before..t.queue.size];
    assert t.queue.Items()[before..] == pushed;
  }
}

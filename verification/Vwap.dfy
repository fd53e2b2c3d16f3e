/** Volume-weighted execution: on every trade tick, catch up with a target read off a
    cumulative volume curve. */
module Vwaps {
  import opened Machine
  import opened Arith
  import opened BookSpec
  import opened ChildOrders

  const BUCKETS: nat := 13
  const CURVE_SCALE: nat := 1_000_000

  /** A cumulative table: never falling, ending at the full scale. The floating-point
      computation of the one the code ships is left abstract. */
  ghost predicate IsCurve(c: seq<nat>) {
    |c| == BUCKETS && c[BUCKETS - 1] == CURVE_SCALE && forall i, j | 0 <= i <= j < BUCKETS :: c[i] <= c[j]
  }

  type Curve = c: seq<nat> | IsCurve(c)
    ghost witness [CURVE_SCALE, CURVE_SCALE, CURVE_SCALE, CURVE_SCALE, CURVE_SCALE, CURVE_SCALE, CURVE_SCALE,
                   CURVE_SCALE, CURVE_SCALE, CURVE_SCALE, CURVE_SCALE, CURVE_SCALE, CURVE_SCALE]

  datatype Params = Params(
    side: Side, totalShares: u32, startTs: u64, endTs: u64, childType: OrderType, limitPrice: u32)

  datatype Position = Position(index: nat, remainder: nat)

  function BucketPosition(elapsed: nat, span: nat): (p: Position)
    requires span > 0
  {
    if elapsed >= span then Position(BUCKETS - 1, span)
    else
      var scaled := elapsed * BUCKETS;
      Position(if scaled / span >= BUCKETS then BUCKETS - 1 else scaled / span, scaled % span)
  }

  lemma BucketInRange(elapsed: nat, span: nat)
    requires span > 0
    ensures var p := BucketPosition(elapsed, span);
            p.index < BUCKETS && p.remainder <= span
    ensures elapsed < span ==>
              var p := BucketPosition(elapsed, span);
              p.remainder < span && elapsed * BUCKETS == p.index * span + p.remainder
  {
    if elapsed < span {
      DivFloor(elapsed * BUCKETS, span);
      var q := elapsed * BUCKETS / span;
      if q >= BUCKETS {
        MulLe(BUCKETS, q, span);
      }
      DivMonotone(0, elapsed * BUCKETS, span);
    }
  }

  function CumBefore(c: Curve, i: nat): nat
    requires i < BUCKETS
  {
    if i == 0 then 0 else c[i - 1]
  }

  lemma CurveSteps(c: Curve, i: nat)
    requires i < BUCKETS
    ensures CumBefore(c, i) <= c[i] <= CURVE_SCALE
  {
    assert IsCurve(c);
    assert c[i] <= c[BUCKETS - 1];
    if i > 0 {
      assert c[i - 1] <= c[i];
    }
  }

  /** `bucket_weight * remainder / span`. */
  function Within(weight: nat, remainder: nat, span: nat): nat
    requires span > 0
  {
    MulLe(0, weight, remainder);
    DivMonotone(0, weight * remainder, span);
    weight * remainder / span
  }

  lemma WithinBucket(weight: nat, remainder: nat, span: nat)
    requires span > 0 && remainder <= span
    ensures Within(weight, remainder, span) <= weight
    ensures remainder == span ==> Within(weight, remainder, span) == weight
    ensures remainder == 0 ==> Within(weight, remainder, span) == 0
  {
    MulLe(remainder, span, weight);
    DivMonotone(weight * remainder, weight * span, span);
    MultipleMod(weight, span);
    QuotientUnique(0, span, 0, 0);
  }

  /** The slice is rounded down, and by nothing more. */
  lemma WithinIsFloor(weight: nat, remainder: nat, span: nat)
    requires span > 0
    ensures Within(weight, remainder, span) * span <= weight * remainder
    ensures weight * remainder < (Within(weight, remainder, span) + 1) * span
  {
    DivFloor(weight * remainder, span);
    MulAdd(Within(weight, remainder, span), 1, span);
  }

  lemma WithinMonotone(weight: nat, r: nat, r': nat, span: nat)
    requires span > 0 && r <= r'
    ensures Within(weight, r, span) <= Within(weight, r', span)
  {
    MulLe(r, r', weight);
    DivMonotone(weight * r, weight * r', span);
  }

  /** The share of the day's volume expected by now, in units of the curve scale. */
  function Fraction(c: Curve, elapsed: nat, span: nat): nat
    requires span > 0
  {
    BucketInRange(elapsed, span);
    var p := BucketPosition(elapsed, span);
    CurveSteps(c, p.index);
    CumBefore(c, p.index) + Within(c[p.index] - CumBefore(c, p.index), p.remainder, span)
  }

  lemma FractionInBucket(c: Curve, elapsed: nat, span: nat)
    requires span > 0
    ensures var i := BucketPosition(elapsed, span).index;
            i < BUCKETS && CumBefore(c, i) <= Fraction(c, elapsed, span) <= c[i] <= CURVE_SCALE
  {
    BucketInRange(elapsed, span);
    var p := BucketPosition(elapsed, span);
    CurveSteps(c, p.index);
    WithinBucket(c[p.index] - CumBefore(c, p.index), p.remainder, span);
  }

  lemma FractionEnds(c: Curve, span: nat)
    requires span > 0
    ensures Fraction(c, 0, span) == 0 && Fraction(c, span, span) == CURVE_SCALE
  {
    BucketInRange(0, span);
    QuotientUnique(0, span, 0, 0);
    CurveSteps(c, 0);
    WithinBucket(c[0] - CumBefore(c, 0), 0, span);
    CurveSteps(c, BUCKETS - 1);
    WithinBucket(c[BUCKETS - 1] - CumBefore(c, BUCKETS - 1), span, span);
  }

  /** Never falling, within a bucket and across bucket boundaries. */
  lemma FractionMonotone(c: Curve, e: nat, e': nat, span: nat)
    requires span > 0 && e <= e' <= span
    ensures Fraction(c, e, span) <= Fraction(c, e', span)
  {
    var p, p' := BucketPosition(e, span), BucketPosition(e', span);
    FractionInBucket(c, e, span);
    FractionInBucket(c, e', span);
    BucketsAdvance(e, e', span);
    if p.index < p'.index {
      assert IsCurve(c);
      assert c[p.index] <= c[p'.index - 1];
    } else {
      WithinMonotone(c[p.index] - CumBefore(c, p.index), p.remainder, p'.remainder, span);
    }
  }

  lemma BucketsAdvance(e: nat, e': nat, span: nat)
    requires span > 0 && e <= e' <= span
    ensures var p, p' := BucketPosition(e, span), BucketPosition(e', span);
            p.index < p'.index || (p.index == p'.index && p.remainder <= p'.remainder)
  {
    BucketInRange(e, span);
    BucketInRange(e', span);
    if e' < span {
      var p, p' := BucketPosition(e, span), BucketPosition(e', span);
      FloorLe(p.index, p.remainder, p'.index, p'.remainder, span);
    }
  }

  /** `target_shares`, for a time inside the window. */
  function Target(p: Params, c: Curve, now: u64): u32
    requires p.startTs < p.endTs && p.startTs <= now <= p.endTs
  {
    var f := Fraction(c, now - p.startTs, p.endTs - p.startTs);
    var t := p.totalShares * f / CURVE_SCALE;
    MulLe(0, p.totalShares, f);
    DivMonotone(0, p.totalShares * f, CURVE_SCALE);
    if t >= p.totalShares then p.totalShares else t
  }

  lemma TargetIsScaled(p: Params, c: Curve, now: u64)
    requires p.startTs < p.endTs && p.startTs <= now <= p.endTs
    ensures Target(p, c, now) == p.totalShares * Fraction(c, now - p.startTs, p.endTs - p.startTs) / CURVE_SCALE
  {
    var f := Fraction(c, now - p.startTs, p.endTs - p.startTs);
    FractionInBucket(c, now - p.startTs, p.endTs - p.startTs);
    MulLe(f, CURVE_SCALE, p.totalShares);
    DivMonotone(p.totalShares * f, p.totalShares * CURVE_SCALE, CURVE_SCALE);
    MultipleMod(p.totalShares, CURVE_SCALE);
  }

  lemma TargetEnds(p: Params, c: Curve)
    requires p.startTs < p.endTs
    ensures Target(p, c, p.startTs) == 0 && Target(p, c, p.endTs) == p.totalShares
  {
    FractionEnds(c, p.endTs - p.startTs);
    TargetIsScaled(p, c, p.startTs);
    TargetIsScaled(p, c, p.endTs);
    MultipleMod(p.totalShares, CURVE_SCALE);
    QuotientUnique(0, CURVE_SCALE, 0, 0);
  }

  lemma TargetMonotone(p: Params, c: Curve, now: u64, later: u64)
    requires p.startTs < p.endTs && p.startTs <= now <= later <= p.endTs
    ensures Target(p, c, now) <= Target(p, c, later)
  {
    var span := p.endTs - p.startTs;
    var f, f' := Fraction(c, now - p.startTs, span), Fraction(c, later - p.startTs, span);
    FractionMonotone(c, now - p.startTs, later - p.startTs, span);
    TargetIsScaled(p, c, now);
    TargetIsScaled(p, c, later);
    ScaledMonotone(p.totalShares, f, f');
  }

  lemma ScaledMonotone(total: nat, f: nat, f': nat)
    requires f <= f'
    ensures total * f / CURVE_SCALE <= total * f' / CURVE_SCALE
  {
    MulLe(f, f', total);
    DivMonotone(total * f, total * f', CURVE_SCALE);
  }

  /** Thirteenths of the window passed: all of bucket i is behind, bucket i+1 not yet. */
  predicate InBucket(elapsed: nat, span: nat, i: nat) {
    i < 13 && i * span <= 13 * elapsed < (i + 1) * span
  }

  /** f is the table read between the ends of bucket i, in proportion to the part of the
      bucket that has passed, rounded down. */
  ghost predicate ReadOff(c: Curve, elapsed: nat, span: nat, i: nat, f: nat)
    requires i < 13
  {
    var from := if i == 0 then 0 else c[i - 1];
    var passed := 13 * elapsed - i * span;
    from <= f && (f - from) * span <= (c[i] - from) * passed < (f - from + 1) * span
  }

  lemma FractionIsReadOff(c: Curve, elapsed: nat, span: nat)
    requires span > 0 && elapsed < span
    ensures var i := BucketPosition(elapsed, span).index;
            InBucket(elapsed, span, i) && ReadOff(c, elapsed, span, i, Fraction(c, elapsed, span))
  {
    BucketInRange(elapsed, span);
    var pos := BucketPosition(elapsed, span);
    CurveSteps(c, pos.index);
    MulAdd(pos.index, 1, span);
    WithinIsFloor(c[pos.index] - CumBefore(c, pos.index), pos.remainder, span);
  }

  lemma ScaledIsFloor(total: nat, f: nat)
    ensures total * f / CURVE_SCALE * 1_000_000 <= total * f < (total * f / CURVE_SCALE + 1) * 1_000_000
  {
    DivFloor(total * f, CURVE_SCALE);
  }

  /** The target at any time before the end: the parent's shares times the table read in
      proportion between the ends of the bucket, over 1,000,000, rounded down. */
  lemma TargetIsInterpolated(p: Params, c: Curve, now: u64) returns (i: nat, f: nat)
    requires p.startTs <= now < p.endTs
    ensures var elapsed, span := now - p.startTs, p.endTs - p.startTs;
            InBucket(elapsed, span, i) && ReadOff(c, elapsed, span, i, f)
    ensures Target(p, c, now) * 1_000_000 <= p.totalShares * f < (Target(p, c, now) + 1) * 1_000_000
  {
    var elapsed, span := now - p.startTs, p.endTs - p.startTs;
    i, f := BucketPosition(elapsed, span).index, Fraction(c, elapsed, span);
    FractionIsReadOff(c, elapsed, span);
    TargetIsScaled(p, c, now);
    ScaledIsFloor(p.totalShares, f);
  }

  /** Zero at the start, everything at the end, never falling between. */
  lemma TargetCurve(p: Params, c: Curve)
    requires p.startTs < p.endTs
    ensures Target(p, c, p.startTs) == 0 && Target(p, c, p.endTs) == p.totalShares
    ensures forall now, later: u64 | p.startTs <= now <= later <= p.endTs :: Target(p, c, now) <= Target(p, c, later)
  {
    TargetEnds(p, c);
    forall now, later: u64 | p.startTs <= now <= later <= p.endTs
      ensures Target(p, c, now) <= Target(p, c, later)
    {
      TargetMonotone(p, c, now, later);
    }
  }

  /** None of the three 128-bit products wraps. */
  lemma ProductsFit(p: Params, c: Curve, now: u64)
    requires p.startTs < p.endTs && p.startTs <= now <= p.endTs
    ensures var elapsed, span := now - p.startTs, p.endTs - p.startTs;
            var pos := BucketPosition(elapsed, span);
            && elapsed * BUCKETS < TWO_128
            && pos.index < BUCKETS
            && (c[pos.index] - CumBefore(c, pos.index)) * pos.remainder < TWO_128
            && p.totalShares * Fraction(c, elapsed, span) < TWO_128
  {
    var elapsed, span := now - p.startTs, p.endTs - p.startTs;
    BucketInRange(elapsed, span);
    FractionInBucket(c, elapsed, span);
    var pos := BucketPosition(elapsed, span);
    CurveSteps(c, pos.index);
    var w := c[pos.index] - CumBefore(c, pos.index);
    MulLe(w, CURVE_SCALE, pos.remainder);
    var f := Fraction(c, elapsed, span);
    MulLe(f, CURVE_SCALE, p.totalShares);
  }

  // ---------------------------------------------------------------- strategy

  datatype Tick = Tick(ts: u64, shares: u32)

  predicate InWindow(p: Params, t: Tick) {
    p.startTs <= t.ts <= p.endTs
  }

  class Vwap {
    const params: Params
    const curve: Curve
    var sharesSent: u32
    var marketSharesSeen: u32
    const queue: ChildOrderQueue

    ghost predicate Valid()
      reads this, queue
    {
      params.startTs < params.endTs && sharesSent <= params.totalShares && queue.Valid()
    }

    /** Null stands for the exception. */
    static method Create(p: Params, c: Curve) returns (v: Vwap?)
      ensures v == null <==> p.startTs >= p.endTs
      ensures v != null ==> v.Valid() && v.params == p && v.curve == c && v.sharesSent == 0 && v.queue.Items() == []
    {
      if p.startTs >= p.endTs {
        return null;
      }
      v := new Vwap(p, c);
    }

    constructor (p: Params, c: Curve)
      requires p.startTs < p.endTs
      ensures Valid() && params == p && curve == c && sharesSent == 0 && queue.Items() == []
      ensures fresh(queue) && fresh(queue.buf)
    {
      params, curve := p, c;
      sharesSent, marketSharesSeen := 0, 0;
      queue := new ChildOrderQueue();
    }

    /** One trade: send what is missing to the target, if the queue takes it. */
    method OnTradeTick(t: Tick)
      requires Valid()
      modifies this, queue`size, queue.buf
      ensures Valid()
      ensures marketSharesSeen == if params.startTs <= t.ts <= params.endTs
                                  then (old(marketSharesSeen) + t.shares) % 0x1_0000_0000 else old(marketSharesSeen)
      ensures sharesSent == Caught(params, curve, old(sharesSent), |old(queue.Items())|, t)
      ensures sharesSent == if params.startTs <= t.ts <= params.endTs && |old(queue.Items())| < 512
                               && Target(params, curve, t.ts) > old(sharesSent)
                            then Target(params, curve, t.ts) else old(sharesSent)
      ensures queue.Items() == if sharesSent == old(sharesSent) then old(queue.Items())
                               else old(queue.Items())
                                    + [ChildOrder(t.ts, params.side, params.childType, params.limitPrice,
                                                  sharesSent - old(sharesSent))]
    {
      if t.ts < params.startTs || t.ts > params.endTs {
        return;
      }
      marketSharesSeen := (marketSharesSeen + t.shares) % TWO_32;
      if sharesSent >= params.totalShares {
        return;
      }
      var target := Target(params, curve, t.ts);
      if target <= sharesSent {
        return;
      }
      var remaining := params.totalShares - sharesSent;
      var behind := target - sharesSent;
      var toSend := if behind < remaining then behind else remaining;
      if toSend == 0 {
        return;
      }
      var ok := queue.Push(ChildOrder(t.ts, params.side, params.childType, params.limitPrice, toSend));
      if ok {
        sharesSent := sharesSent + toSend;
      }
    }
  }

  /** Shares sent after a tick, given how full the queue was: caught up with the target,
      or unchanged when ahead of it, outside the window, or without room. */
  function Caught(p: Params, c: Curve, sent: u32, queued: nat, t: Tick): u32
    requires p.startTs < p.endTs
  {
    if InWindow(p, t) && Target(p, c, t.ts) > sent && queued < MAX_CHILD_ORDERS then Target(p, c, t.ts) else sent
  }

  // ---------------------------------------------------------------- runs

  predicate InOrder(ts: seq<Tick>) {
    forall i, j | 0 <= i < j < |ts| :: ts[i].ts <= ts[j].ts
  }

  /** Shares sent over a run in which the queue always has room. */
  function SentOver(p: Params, c: Curve, ts: seq<Tick>): u32
    requires p.startTs < p.endTs
  {
    if ts == [] then 0 else Caught(p, c, SentOver(p, c, ts[..|ts| - 1]), 0, ts[|ts| - 1])
  }

  /** The last tick inside the window, if any. */
  function LastInside(p: Params, ts: seq<Tick>): Option<Tick> {
    if ts == [] then None
    else if InWindow(p, ts[|ts| - 1]) then Some(ts[|ts| - 1])
    else LastInside(p, ts[..|ts| - 1])
  }

  lemma {:induction false} LastInsideIsTick(p: Params, ts: seq<Tick>)
    ensures LastInside(p, ts).Some? ==> LastInside(p, ts).value in ts && InWindow(p, LastInside(p, ts).value)
    decreases |ts|
  {
    if ts != [] {
      LastInsideIsTick(p, ts[..|ts| - 1]);
    }
  }

  /** Over ticks in time order and with queue room, what has been sent is exactly the
      target at the last tick inside the window. */
  lemma {:induction false} TracksTheTarget(p: Params, c: Curve, ts: seq<Tick>)
    requires p.startTs < p.endTs && InOrder(ts)
    ensures var last := LastInside(p, ts);
            if last.Some? then InWindow(p, last.value) && SentOver(p, c, ts) == Target(p, c, last.value.ts)
            else SentOver(p, c, ts) == 0
    decreases |ts|
  {
    if ts != [] {
      var n := |ts| - 1;
      TracksTheTarget(p, c, ts[..n]);
      var before := LastInside(p, ts[..n]);
      LastInsideIsTick(p, ts[..n]);
      if InWindow(p, ts[n]) && before.Some? {
        assert before.value.ts <= ts[n].ts;
        TargetMonotone(p, c, before.value.ts, ts[n].ts);
      }
    }
  }

  /** One tick, after which the driver takes whatever was pushed. */
  method TickAndTake(v: Vwap, t: Tick) returns (taken: seq<ChildOrder>)
    requires v.Valid() && v.queue.Items() == []
    modifies v, v.queue`size, v.queue.buf
    ensures v.Valid() && v.queue.Items() == []
    ensures v.sharesSent == Caught(v.params, v.curve, old(v.sharesSent), 0, t)
    ensures |taken| <= 1 && v.sharesSent == old(v.sharesSent) + (if taken == [] then 0 else taken[0].shares)
  {
    v.OnTradeTick(t);
    taken := v.queue.buf[..v.queue.size];
    assert taken == v.queue.Items();
    v.queue.Clear();
  }

  /** A whole run of the strategy with room in the queue: the children sent add up to
      `sharesSent`, which tracks the target. */
  method RunWithRoom(p: Params, c: Curve, ts: seq<Tick>) returns (sent: u32, children: seq<ChildOrder>)
    requires p.startTs < p.endTs && InOrder(ts)
    ensures sent == TotalShares(children)
    ensures var last := LastInside(p, ts);
            if last.Some? then InWindow(p, last.value) && sent == Target(p, c, last.value.ts) else sent == 0
  {
    var v := new Vwap(p, c);
    children := [];
    var i := 0;
    while i < |ts|
      invariant 0 <= i <= |ts| && v.Valid() && v.params == p && v.curve == c
      invariant fresh(v) && fresh(v.queue) && fresh(v.queue.buf) && v.queue.Items() == []
      invariant v.sharesSent == SentOver(p, c, ts[..i]) == TotalShares(children)
    {
      assert ts[..i + 1][..i] == ts[..i];
      var taken := TickAndTake(v, ts[i]);
      if taken != [] {
        TotalOfOneMore(children, taken[0]);
        children := children + [taken[0]];
      }
      i := i + 1;
    }
    assert ts[..i] == ts;
    TracksTheTarget(p, c, ts);
    sent := v.sharesSent;
  }

  // ---------------------------------------------------------------- any ticks, any queue

  /** What a driver does: hand over a trade, in whatever order, or empty the queue. */
  datatype Event = Trade(t: Tick) | Clear

  datatype Run = Run(sent: u32, queued: nat, children: seq<ChildOrder>)

  function After(p: Params, c: Curve, r: Run, e: Event): Run
    requires p.startTs < p.endTs
  {
    match e
    case Clear => r.(queued := 0)
    case Trade(t) =>
      var sent := Caught(p, c, r.sent, r.queued, t);
      if sent == r.sent then r
      else Run(sent, r.queued + 1, r.children + [ChildOrder(t.ts, p.side, p.childType, p.limitPrice, sent - r.sent)])
  }

  function RunAll(p: Params, c: Curve, es: seq<Event>): Run
    requires p.startTs < p.endTs
    decreases |es|
  {
    if es == [] then Run(0, 0, []) else After(p, c, RunAll(p, c, es[..|es| - 1]), es[|es| - 1])
  }

  /** Event i is a trade inside the window that found room in the queue. */
  predicate FoundRoom(p: Params, c: Curve, es: seq<Event>, i: nat)
    requires p.startTs < p.endTs && i < |es|
  {
    es[i].Trade? && InWindow(p, es[i].t) && RunAll(p, c, es[..i]).queued < MAX_CHILD_ORDERS
  }

  ghost predicate IsLargestTarget(p: Params, c: Curve, es: seq<Event>, x: nat)
    requires p.startTs < p.endTs
  {
    && (forall i, t: nat | 0 <= i < |es| && Reached(p, c, es, i, t) :: t <= x)
    && (x == 0 || exists i :: 0 <= i < |es| && Reached(p, c, es, i, x))
  }

  lemma {:induction false} SentIsSum(p: Params, c: Curve, es: seq<Event>)
    requires p.startTs < p.endTs
    ensures var r := RunAll(p, c, es);
            r.sent == TotalShares(r.children) && r.sent <= p.totalShares
    decreases |es|
  {
    if es != [] {
      var n := |es| - 1;
      var r := RunAll(p, c, es[..n]);
      SentIsSum(p, c, es[..n]);
      if es[n].Trade? {
        var sent := Caught(p, c, r.sent, r.queued, es[n].t);
        if sent > r.sent {
          TotalOfOneMore(r.children, ChildOrder(es[n].t.ts, p.side, p.childType, p.limitPrice, sent - r.sent));
        }
      }
    }
  }

  lemma SentAfter(p: Params, c: Curve, es: seq<Event>)
    requires p.startTs < p.endTs && es != []
    ensures var n := |es| - 1;
            var before := RunAll(p, c, es[..n]).sent;
            RunAll(p, c, es).sent
            == if FoundRoom(p, c, es, n) then Max(before, Target(p, c, es[n].t.ts)) else before
  {
  }

  /** Over any trades in any order, with any queue fills and clears: what has been sent is
      the largest target over the trades inside the window that found room, never more
      than the parent order, and the sum of the children pushed. */
  lemma {:induction false} SentIsLargestTarget(p: Params, c: Curve, es: seq<Event>)
    requires p.startTs < p.endTs
    ensures var r := RunAll(p, c, es);
            IsLargestTarget(p, c, es, r.sent) && r.sent == TotalShares(r.children) && r.sent <= p.totalShares
    decreases |es|
  {
    SentIsSum(p, c, es);
    if es != [] {
      var before := es[..|es| - 1];
      SentIsLargestTarget(p, c, before);
      LargestOfOneMore(p, c, es, RunAll(p, c, before).sent);
      SentAfter(p, c, es);
    }
  }

  /** Event i found room, and its target is x. */
  ghost predicate Reached(p: Params, c: Curve, es: seq<Event>, i: nat, x: nat)
    requires p.startTs < p.endTs && i < |es|
  {
    FoundRoom(p, c, es, i) && Target(p, c, es[i].t.ts) == x
  }

  lemma ReachedEarlier(p: Params, c: Curve, es: seq<Event>, n: nat, i: nat, x: nat)
    requires p.startTs < p.endTs && i < n <= |es|
    ensures Reached(p, c, es[..n], i, x) == Reached(p, c, es, i, x)
  {
    assert es[..n][..i] == es[..i];
  }

  lemma LargestOfOneMore(p: Params, c: Curve, es: seq<Event>, x: nat)
    requires p.startTs < p.endTs && es != []
    requires IsLargestTarget(p, c, es[..|es| - 1], x)
    ensures var n := |es| - 1;
            IsLargestTarget(p, c, es, if FoundRoom(p, c, es, n) then Max(x, Target(p, c, es[n].t.ts)) else x)
  {
    var n := |es| - 1;
    var y := if FoundRoom(p, c, es, n) then Max(x, Target(p, c, es[n].t.ts)) else x;
    forall i, t: nat | 0 <= i < |es| && Reached(p, c, es, i, t)
      ensures t <= y
    {
      if i < n {
        ReachedEarlier(p, c, es, n, i, t);
      }
    }
    if y == x && x != 0 {
      var i :| 0 <= i < n && Reached(p, c, es[..n], i, x);
      ReachedEarlier(p, c, es, n, i, x);
    } else if y != 0 {
      assert Reached(p, c, es, n, y);
    }
  }

  /** One trade through the strategy: its new totals and, if it pushed one, the child. */
  method Offer(v: Vwap, t: Tick, ghost r: Run) returns (pushed: seq<ChildOrder>)
    requires v.Valid() && r.sent == v.sharesSent && r.queued == |v.queue.Items()|
    modifies v, v.queue`size, v.queue.buf
    ensures v.Valid()
    ensures Run(v.sharesSent, |v.queue.Items()|, r.children + pushed) == After(v.params, v.curve, r, Trade(t))
  {
    var before := v.queue.size;
    v.OnTradeTick(t);
    pushed := v.queue.buf[before..v.queue.size];
    assert v.queue.Items()[before..] == pushed;
  }

  /** A whole run of the strategy against any driver. */
  method Drive(p: Params, c: Curve, es: seq<Event>) returns (sent: u32, children: seq<ChildOrder>)
    requires p.startTs < p.endTs
    ensures IsLargestTarget(p, c, es, sent) && sent == TotalShares(children) && sent <= p.totalShares
  {
    var v := new Vwap(p, c);
    children := [];
    var i := 0;
    while i < |es|
      invariant 0 <= i <= |es| && v.Valid() && v.params == p && v.curve == c
      invariant fresh(v) && fresh(v.queue) && fresh(v.queue.buf)
      invariant Run(v.sharesSent, |v.queue.Items()|, children) == RunAll(p, c, es[..i])
    {
      assert es[..i + 1][..i] == es[..i];
      match es[i] {
        case Clear => v.queue.Clear();
        case Trade(t) =>
          var pushed := Offer(v, t, RunAll(p, c, es[..i]));
          children := children + pushed;
      }
      i := i + 1;
    }
    assert es[..i] == es;
    SentIsLargestTarget(p, c, es);
    sent := v.sharesSent;
  }
}

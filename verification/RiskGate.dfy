/** The risk layer between a strategy's orders and wherever they go next. */
module RiskGates {
  import opened Machine
  import opened Arith
  import opened ChildOrders

  datatype Limits = Limits(
    maxOrderShares: u32, maxOrderNotional: u64, priceCollarBps: u32,
    maxCumulativeShares: u32, maxCumulativeNotional: u64)

  datatype Reason =
    | Passed
    | OrderTooLarge
    | NotionalTooLarge
    | PriceOutOfCollar
    | CumulativeSharesExceeded
    | CumulativeNotionalExceeded
    | KillSwitchTripped

  datatype Gate = Gate(reference: u32, tripped: bool, shares: u64, notional: u128)

  function Notional(o: ChildOrder): nat {
    MulLe(0, o.price, o.shares);
    o.price * o.shares
  }

  function Distance(a: u32, b: u32): u32 {
    if a >= b then a - b else b - a
  }

  function AllowedDeviation(l: Limits, reference: u32): nat {
    MulLe(0, reference, l.priceCollarBps);
    DivMonotone(0, reference * l.priceCollarBps, 10_000);
    reference * l.priceCollarBps / 10_000
  }

  /** A limit order is collared once a reference price is known. */
  predicate InCollar(l: Limits, reference: u32, o: ChildOrder) {
    o.kind == Limit && reference != 0 ==> Distance(o.price, reference) <= AllowedDeviation(l, reference)
  }

  /** Size, notional and collar limits of a single order. */
  predicate WithinOrderLimits(l: Limits, reference: u32, o: ChildOrder) {
    o.shares <= l.maxOrderShares && Notional(o) <= l.maxOrderNotional && InCollar(l, reference, o)
  }

  /** The running totals with one more order, modulo 2^64 and 2^128. */
  function SharesWith(g: Gate, o: ChildOrder): u64 {
    (g.shares + o.shares) % TWO_64
  }

  function NotionalWith(g: Gate, o: ChildOrder): u128 {
    (g.notional + Notional(o)) % TWO_128
  }

  /** The first violated limit, in the order they are tested. */
  function Decide(l: Limits, g: Gate, o: ChildOrder): Reason {
    if g.tripped then KillSwitchTripped
    else if o.shares > l.maxOrderShares then OrderTooLarge
    else if Notional(o) > l.maxOrderNotional then NotionalTooLarge
    else if !InCollar(l, g.reference, o) then PriceOutOfCollar
    else if SharesWith(g, o) > l.maxCumulativeShares then CumulativeSharesExceeded
    else if NotionalWith(g, o) > l.maxCumulativeNotional then CumulativeNotionalExceeded
    else Passed
  }

  /** A check moves nothing but the latch. */
  function Checked(l: Limits, g: Gate, o: ChildOrder): Gate {
    var r := Decide(l, g, o);
    g.(tripped := g.tripped || r == CumulativeSharesExceeded || r == CumulativeNotionalExceeded)
  }

  function Recorded(g: Gate, o: ChildOrder): Gate {
    g.(shares := SharesWith(g, o), notional := NotionalWith(g, o))
  }

  // ---------------------------------------------------------------- the limits, in plain numbers

  /** A limit order, once a reference price is known, whose price is off by more than so
      many ten-thousandths of it. */
  predicate OutOfCollar(l: Limits, reference: u32, o: ChildOrder) {
    && o.kind == Limit && reference != 0
    && (|| (o.price - reference) * 10_000 > reference * l.priceCollarBps
        || (reference - o.price) * 10_000 > reference * l.priceCollarBps)
  }

  lemma CollarIs(l: Limits, reference: u32, o: ChildOrder)
    ensures InCollar(l, reference, o) <==> !OutOfCollar(l, reference, o)
  {
    var x := reference * l.priceCollarBps;
    DivFloor(x, 10_000);
    MulLe(0, reference, l.priceCollarBps);
  }

  /** The limits an order has to meet by itself. */
  predicate MeetsOwnLimits(l: Limits, reference: u32, o: ChildOrder) {
    o.shares <= l.maxOrderShares && o.price * o.shares <= l.maxOrderNotional && !OutOfCollar(l, reference, o)
  }

  /** Which answer a check gives, and exactly when: each limit is tested only if all the
      ones before it are met. */
  lemma WhyRefused(l: Limits, g: Gate, o: ChildOrder)
    ensures var r, notional := Decide(l, g, o), o.price * o.shares;
            var sized := !g.tripped && o.shares <= l.maxOrderShares;
            var priced := sized && notional <= l.maxOrderNotional;
            var own := priced && !OutOfCollar(l, g.reference, o);
            var shares := (g.shares + o.shares) % 0x1_0000_0000_0000_0000;
            var total := (g.notional + notional) % 0x1_0000_0000_0000_0000_0000_0000_0000_0000;
            && (r == KillSwitchTripped <==> g.tripped)
            && (r == OrderTooLarge <==> !g.tripped && o.shares > l.maxOrderShares)
            && (r == NotionalTooLarge <==> sized && notional > l.maxOrderNotional)
            && (r == PriceOutOfCollar <==> priced && OutOfCollar(l, g.reference, o))
            && (r == CumulativeSharesExceeded <==> own && shares > l.maxCumulativeShares)
            && (r == CumulativeNotionalExceeded <==>
                  own && shares <= l.maxCumulativeShares && total > l.maxCumulativeNotional)
            && (r == Passed <==> own && shares <= l.maxCumulativeShares && total <= l.maxCumulativeNotional)
  {
    CollarIs(l, g.reference, o);
  }

  // ---------------------------------------------------------------- the gate and its queues

  datatype Applied = Applied(gate: Gate, accepted: seq<ChildOrder>, reasons: seq<Reason>)

  /** One order of `apply`: checked, and recorded only if it was also pushed. */
  function ApplyOne(l: Limits, a: Applied, o: ChildOrder): Applied {
    var r := Decide(l, a.gate, o);
    var g := Checked(l, a.gate, o);
    if r == Passed && |a.accepted| < MAX_CHILD_ORDERS
    then Applied(Recorded(g, o), a.accepted + [o], a.reasons + [r])
    else Applied(g, a.accepted, a.reasons + [r])
  }

  function ApplyAll(l: Limits, a: Applied, os: seq<ChildOrder>): Applied
    decreases |os|
  {
    if os == [] then a else ApplyOne(l, ApplyAll(l, a, os[..|os| - 1]), os[|os| - 1])
  }

  /** `apply` answers every order once, in turn, with what a check then says. */
  lemma {:induction false} AnswersInTurn(l: Limits, a: Applied, os: seq<ChildOrder>)
    ensures var r := ApplyAll(l, a, os);
            && |r.reasons| == |a.reasons| + |os| && a.reasons <= r.reasons
            && forall i | 0 <= i < |os| :: r.reasons[|a.reasons| + i] == AnswerTo(l, a, os, i)
    decreases |os|
  {
    if os != [] {
      var n := |os| - 1;
      AnswersInTurn(l, a, os[..n]);
      AnswerIsAdded(l, ApplyAll(l, a, os[..n]), os[n]);
      forall i | 0 <= i < n
        ensures AnswerTo(l, a, os[..n], i) == AnswerTo(l, a, os, i)
      {
        assert os[..n][..i] == os[..i];
      }
    }
  }

  /** What a check says to order i after the ones before it. */
  function AnswerTo(l: Limits, a: Applied, os: seq<ChildOrder>, i: nat): Reason
    requires i < |os|
  {
    Decide(l, ApplyAll(l, a, os[..i]).gate, os[i])
  }

  lemma AnswerIsAdded(l: Limits, a: Applied, o: ChildOrder)
    ensures ApplyOne(l, a, o).reasons == a.reasons + [Decide(l, a.gate, o)]
  {
  }

  class RiskGate {
    const limits: Limits
    var reference: u32
    var tripped: bool
    var cumulativeShares: u64
    var cumulativeNotional: u128

    ghost function State(): Gate
      reads this
    {
      Gate(reference, tripped, cumulativeShares, cumulativeNotional)
    }

    constructor (limits: Limits, reference: u32)
      ensures this.limits == limits && State() == Gate(reference, false, 0, 0)
    {
      this.limits, this.reference := limits, reference;
      tripped, cumulativeShares, cumulativeNotional := false, 0, 0;
    }

    method SetReferencePrice(p: u32)
      modifies this`reference
      ensures State() == old(State()).(reference := p)
    {
      reference := p;
    }

    method Check(o: ChildOrder) returns (r: Reason)
      modifies this`tripped
      ensures r == Decide(limits, old(State()), o)
      ensures State() == Checked(limits, old(State()), o)
    {
      if tripped {
        return KillSwitchTripped;
      }
      if o.shares > limits.maxOrderShares {
        return OrderTooLarge;
      }
      var notional := Notional(o);
      if notional > limits.maxOrderNotional {
        return NotionalTooLarge;
      }
      if o.kind == Limit && reference != 0 {
        if Distance(o.price, reference) > AllowedDeviation(limits, reference) {
          return PriceOutOfCollar;
        }
      }
      if (cumulativeShares + o.shares) % TWO_64 > limits.maxCumulativeShares {
        tripped := true;
        return CumulativeSharesExceeded;
      }
      if (cumulativeNotional + notional) % TWO_128 > limits.maxCumulativeNotional {
        tripped := true;
        return CumulativeNotionalExceeded;
      }
      r := Passed;
    }

    method Record(o: ChildOrder)
      modifies this`cumulativeShares, this`cumulativeNotional
      ensures State() == Recorded(old(State()), o)
    {
      cumulativeShares := (cumulativeShares + o.shares) % TWO_64;
      cumulativeNotional := (cumulativeNotional + Notional(o)) % TWO_128;
    }

    method Reset()
      modifies this`tripped, this`cumulativeShares, this`cumulativeNotional
      ensures State() == Gate(old(reference), false, 0, 0)
    {
      tripped, cumulativeShares, cumulativeNotional := false, 0, 0;
    }
  }

  /** Where `apply` stands once the first i orders are through. */
  ghost predicate AppliedSoFar(l: Limits, a: Applied, os: seq<ChildOrder>, i: nat, now: Applied) {
    i <= |os| && now == ApplyAll(l, a, os[..i])
  }

  lemma AppliedOneMore(l: Limits, a: Applied, os: seq<ChildOrder>, i: nat, before: Applied, after: Applied)
    requires AppliedSoFar(l, a, os, i, before) && i < |os| && after == ApplyOne(l, before, os[i])
    ensures AppliedSoFar(l, a, os, i + 1, after)
  {
    assert os[..i + 1][..i] == os[..i];
  }

  /** Passes the orders of a queue through a gate into another, or into the same one, in
      which case only the orders there at the start are passed. */
  method Apply(gate: RiskGate, input: ChildOrderQueue, accepted: ChildOrderQueue)
    returns (count: nat, reasons: seq<Reason>)
    requires input.Valid() && accepted.Valid() && (input == accepted || input.buf != accepted.buf)
    modifies gate, accepted`size, accepted.buf
    ensures input.Valid() && accepted.Valid() && (input != accepted ==> input.Items() == old(input.Items()))
    ensures var a := ApplyAll(gate.limits, Applied(old(gate.State()), old(accepted.Items()), []), old(input.Items()));
            && gate.State() == a.gate && accepted.Items() == a.accepted && reasons == a.reasons
            && count == |a.accepted| - |old(accepted.Items())|
  {
    count, reasons := 0, [];
    ghost var start := Applied(gate.State(), accepted.Items(), []);
    ghost var os, now := input.Items(), start;
    var n, i := input.size, 0;
    while i < n
      invariant 0 <= i <= n == |os| && input.Valid() && accepted.Valid()
      invariant os <= input.Items() && (input != accepted ==> input.Items() == os)
      invariant now == Applied(gate.State(), accepted.Items(), reasons)
      invariant AppliedSoFar(gate.limits, start, os, i, now)
      invariant count == |accepted.Items()| - |start.accepted|
    {
      ghost var before := now;
      var pushed, r := ApplyAt(gate, input, i, accepted, os, reasons);
      reasons := reasons + [r];
      now := Applied(gate.State(), accepted.Items(), reasons);
      AppliedOneMore(gate.limits, start, os, i, before, now);
      if pushed {
        count := count + 1;
      }
      i := i + 1;
    }
    assert os[..i] == os;
  }

  /** Order i of those that were in the input queue at the start. */
  method ApplyAt(gate: RiskGate, input: ChildOrderQueue, i: nat, accepted: ChildOrderQueue,
                 ghost os: seq<ChildOrder>, ghost before: seq<Reason>)
    returns (pushed: bool, r: Reason)
    requires input.Valid() && accepted.Valid() && (input == accepted || input.buf != accepted.buf)
    requires i < |os| && os <= input.Items()
    modifies gate, accepted`size, accepted.buf
    ensures input.Valid() && accepted.Valid() && os <= input.Items()
    ensures input != accepted ==> input.Items() == old(input.Items())
    ensures Applied(gate.State(), accepted.Items(), before + [r])
         == ApplyOne(gate.limits, Applied(old(gate.State()), old(accepted.Items()), before), os[i])
    ensures |accepted.Items()| == |old(accepted.Items())| + (if pushed then 1 else 0)
  {
    assert input.buf[i] == input.Items()[i];
    pushed, r := ApplyNext(gate, input.buf[i], accepted, before);
  }

  method ApplyNext(gate: RiskGate, o: ChildOrder, accepted: ChildOrderQueue, ghost before: seq<Reason>)
    returns (pushed: bool, r: Reason)
    requires accepted.Valid()
    modifies gate, accepted`size, accepted.buf
    ensures accepted.Valid()
    ensures Applied(gate.State(), accepted.Items(), before + [r])
         == ApplyOne(gate.limits, Applied(old(gate.State()), old(accepted.Items()), before), o)
    ensures accepted.Items() == if pushed then old(accepted.Items()) + [o] else old(accepted.Items())
  {
    r := gate.Check(o);
    pushed := false;
    if r == Passed {
      pushed := accepted.Push(o);
      if pushed {
        gate.Record(o);
      }
    }
  }

  // ---------------------------------------------------------------- runs

  /** Anything a session does with a gate. `room` is how many orders the queue behind it
      still takes during one `apply`. */
  datatype Event =
    | SetReference(p: u32)
    | Ask(o: ChildOrder)
    | Pass(os: seq<ChildOrder>, room: nat)
    | Reset

  /** An accepted order and the reference price in force when it was accepted. */
  datatype Acceptance = Acceptance(order: ChildOrder, reference: u32)

  /** A gate, and the orders accepted since the last reset. */
  datatype Session = Session(gate: Gate, since: seq<Acceptance>)

  function PassOne(l: Limits, s: Session, o: ChildOrder, room: bool): Session {
    var g := Checked(l, s.gate, o);
    if Decide(l, s.gate, o) == Passed && room
    then Session(Recorded(g, o), s.since + [Acceptance(o, s.gate.reference)])
    else s.(gate := g)
  }

  function PassAll(l: Limits, s: Session, os: seq<ChildOrder>, room: nat): Session
    decreases |os|
  {
    if os == [] then s
    else
      var s' := PassOne(l, s, os[0], room > 0);
      PassAll(l, s', os[1..], if |s'.since| > |s.since| then room - 1 else room)
  }

  function Next(l: Limits, s: Session, e: Event): Session {
    match e
    case SetReference(p) => s.(gate := s.gate.(reference := p))
    case Ask(o) => s.(gate := Checked(l, s.gate, o))
    case Pass(os, room) => PassAll(l, s, os, room)
    case Reset => Session(Gate(s.gate.reference, false, 0, 0), [])
  }

  function Play(l: Limits, s: Session, es: seq<Event>): Session
    decreases |es|
  {
    if es == [] then s else Play(l, Next(l, s, es[0]), es[1..])
  }

  function SharesOf(a: seq<Acceptance>): nat {
    if a == [] then 0 else SharesOf(a[..|a| - 1]) + a[|a| - 1].order.shares
  }

  function NotionalOf(a: seq<Acceptance>): nat {
    if a == [] then 0 else NotionalOf(a[..|a| - 1]) + Notional(a[|a| - 1].order)
  }

  /** The totals are those of the orders accepted since the last reset, within their
      limits, and each of those orders met the per-order limits and collar in force. */
  ghost predicate Safe(l: Limits, s: Session) {
    && s.gate.shares == SharesOf(s.since) <= l.maxCumulativeShares
    && s.gate.notional == NotionalOf(s.since) <= l.maxCumulativeNotional
    && forall i | 0 <= i < |s.since| :: WithinOrderLimits(l, s.since[i].reference, s.since[i].order)
  }

  lemma NotionalFits(o: ChildOrder)
    ensures Notional(o) < TWO_64
  {
    MulLe(o.price, TWO_32 - 1, o.shares);
    MulLe(o.shares, TWO_32 - 1, TWO_32 - 1);
  }

  /** Within a session no running total wraps. */
  lemma NothingWraps(l: Limits, s: Session, o: ChildOrder)
    requires Safe(l, s)
    ensures SharesWith(s.gate, o) == s.gate.shares + o.shares
    ensures NotionalWith(s.gate, o) == s.gate.notional + Notional(o)
  {
    NotionalFits(o);
    SmallMod(s.gate.shares + o.shares, TWO_64);
    SmallMod(s.gate.notional + Notional(o), TWO_128);
  }

  /** Recording outside a session wraps: the totals then say less than was recorded, and
      a check may pass what it should not. */
  lemma UncheckedRecordingWraps(g: Gate, o: ChildOrder)
    ensures Recorded(g, o).shares == g.shares + o.shares <==> g.shares + o.shares < TWO_64
    ensures Recorded(g, o).notional == g.notional + Notional(o) <==> g.notional + Notional(o) < TWO_128
  {
  }

  lemma PassOneIsSafe(l: Limits, s: Session, o: ChildOrder, room: bool)
    requires Safe(l, s)
    ensures Safe(l, PassOne(l, s, o, room))
  {
    NothingWraps(l, s, o);
    assert (s.since + [Acceptance(o, s.gate.reference)])[..|s.since|] == s.since;
  }

  lemma {:induction false} PassAllIsSafe(l: Limits, s: Session, os: seq<ChildOrder>, room: nat)
    requires Safe(l, s)
    ensures Safe(l, PassAll(l, s, os, room))
    decreases |os|
  {
    if os != [] {
      PassOneIsSafe(l, s, os[0], room > 0);
      var s' := PassOne(l, s, os[0], room > 0);
      PassAllIsSafe(l, s', os[1..], if |s'.since| > |s.since| then room - 1 else room);
    }
  }

  lemma {:induction false} PlayIsSafe(l: Limits, s: Session, es: seq<Event>)
    requires Safe(l, s)
    ensures Safe(l, Play(l, s, es))
    decreases |es|
  {
    if es != [] {
      match es[0] {
        case Pass(os, room) => PassAllIsSafe(l, s, os, room);
        case _ =>
      }
      PlayIsSafe(l, Next(l, s, es[0]), es[1..]);
    }
  }

  /** Over every interleaving from a fresh gate the session stays safe; in particular the
      64-bit share total and the 128-bit notional never come near wrapping. */
  lemma SessionIsSafe(l: Limits, reference: u32, es: seq<Event>)
    ensures var s := Play(l, Session(Gate(reference, false, 0, 0), []), es);
            Safe(l, s) && s.gate.shares + TWO_32 < TWO_64 && s.gate.notional < TWO_64
    ensures var s := Play(l, Session(Gate(reference, false, 0, 0), []), es);
            forall i | 0 <= i < |s.since| :: MeetsOwnLimits(l, s.since[i].reference, s.since[i].order)
  {
    var s := Play(l, Session(Gate(reference, false, 0, 0), []), es);
    PlayIsSafe(l, Session(Gate(reference, false, 0, 0), []), es);
    forall i | 0 <= i < |s.since|
      ensures MeetsOwnLimits(l, s.since[i].reference, s.since[i].order)
    {
      CollarIs(l, s.since[i].reference, s.since[i].order);
    }
  }

  function SharesIn(os: seq<ChildOrder>): nat {
    if os == [] then 0 else os[0].shares + SharesIn(os[1..])
  }

  function NotionalIn(os: seq<ChildOrder>): nat {
    if os == [] then 0 else Notional(os[0]) + NotionalIn(os[1..])
  }

  lemma PassOneWithin(l: Limits, s: Session, o: ChildOrder)
    requires Safe(l, s) && !s.gate.tripped && MeetsOwnLimits(l, s.gate.reference, o)
    requires s.gate.shares + o.shares <= l.maxCumulativeShares
    requires s.gate.notional + Notional(o) <= l.maxCumulativeNotional
    ensures var s' := PassOne(l, s, o, true);
            && Safe(l, s') && !s'.gate.tripped && s'.gate.reference == s.gate.reference
            && s'.gate.shares == s.gate.shares + o.shares && s'.gate.notional == s.gate.notional + Notional(o)
            && s'.since == s.since + [Acceptance(o, s.gate.reference)]
  {
    PassOneIsSafe(l, s, o, true);
    NothingWraps(l, s, o);
    CollarIs(l, s.gate.reference, o);
  }

  ghost predicate AllMeetOwnLimits(l: Limits, reference: u32, os: seq<ChildOrder>) {
    forall i | 0 <= i < |os| :: MeetsOwnLimits(l, reference, os[i])
  }

  lemma PassAllTakesOne(l: Limits, s: Session, os: seq<ChildOrder>, room: nat)
    requires os != [] && room > 0 && PassOne(l, s, os[0], true).since == s.since + [Acceptance(os[0], s.gate.reference)]
    ensures PassAll(l, s, os, room) == PassAll(l, PassOne(l, s, os[0], true), os[1..], room - 1)
  {
  }

  lemma OrdersOfOneMore(a: seq<Acceptance>, x: Acceptance, rest: seq<ChildOrder>)
    ensures OrdersOf(a + [x]) + rest == OrdersOf(a) + ([x.order] + rest)
  {
  }

  /** The gate stops nothing it need not: with room behind it, orders that each meet their
      own limits and together keep within the running ones all pass, in order. */
  lemma {:induction false} OrdersWithinLimitsPass(l: Limits, s: Session, os: seq<ChildOrder>, room: nat)
    requires Safe(l, s) && !s.gate.tripped && |os| <= room && AllMeetOwnLimits(l, s.gate.reference, os)
    requires s.gate.shares + SharesIn(os) <= l.maxCumulativeShares
    requires s.gate.notional + NotionalIn(os) <= l.maxCumulativeNotional
    ensures var s' := PassAll(l, s, os, room);
            !s'.gate.tripped && OrdersOf(s'.since) == OrdersOf(s.since) + os
    decreases |os|
  {
    if os == [] {
      assert OrdersOf(s.since) + os == OrdersOf(s.since);
    } else {
      PassOneWithin(l, s, os[0]);
      PassAllTakesOne(l, s, os, room);
      assert AllMeetOwnLimits(l, s.gate.reference, os[1..]);
      OrdersWithinLimitsPass(l, PassOne(l, s, os[0], true), os[1..], room - 1);
      OrdersOfOneMore(s.since, Acceptance(os[0], s.gate.reference), os[1..]);
      assert [os[0]] + os[1..] == os;
    }
  }

  lemma {:induction false} TrippedPassesNothing(l: Limits, s: Session, os: seq<ChildOrder>, room: nat)
    requires s.gate.tripped
    ensures PassAll(l, s, os, room) == s
    decreases |os|
  {
    if os != [] {
      TrippedPassesNothing(l, s, os[1..], room);
    }
  }

  /** Nothing is accepted between a trip and the next reset, whatever is asked, passed or
      repriced meanwhile, and the gate stays tripped. */
  lemma {:induction false} NothingBetweenTripAndReset(l: Limits, s: Session, es: seq<Event>)
    requires s.gate.tripped && Reset !in es
    ensures var s' := Play(l, s, es);
            && s'.gate.tripped && s'.since == s.since
            && s'.gate.shares == s.gate.shares && s'.gate.notional == s.gate.notional
    decreases |es|
  {
    if es != [] {
      assert es[0] in es;
      match es[0] {
        case Pass(os, room) => TrippedPassesNothing(l, s, os, room);
        case _ =>
      }
      NothingBetweenTripAndReset(l, Next(l, s, es[0]), es[1..]);
    }
  }

  /** An untripped gate trips on a check exactly when the order meets its own limits but
      would break a cumulative one: the order that would cross is the one refused. */
  lemma TripsExactlyOnBreach(l: Limits, g: Gate, o: ChildOrder)
    requires !g.tripped
    ensures Checked(l, g, o).tripped <==>
              && WithinOrderLimits(l, g.reference, o)
              && (SharesWith(g, o) > l.maxCumulativeShares || NotionalWith(g, o) > l.maxCumulativeNotional)
    ensures Decide(l, g, o) == Passed <==>
              && WithinOrderLimits(l, g.reference, o)
              && SharesWith(g, o) <= l.maxCumulativeShares && NotionalWith(g, o) <= l.maxCumulativeNotional
  {
  }

  /** In a session the sums are the true ones: a check trips the gate exactly when the order
      meets its own limits and would break a cumulative one, and passes it exactly when it
      breaks none. */
  lemma SessionTripsExactlyOnBreach(l: Limits, s: Session, o: ChildOrder)
    requires Safe(l, s) && !s.gate.tripped
    ensures var shares, notional := SharesOf(s.since) + o.shares, NotionalOf(s.since) + Notional(o);
            var own, breach := WithinOrderLimits(l, s.gate.reference, o),
                               shares > l.maxCumulativeShares || notional > l.maxCumulativeNotional;
            (Checked(l, s.gate, o).tripped <==> own && breach) && (Decide(l, s.gate, o) == Passed <==> own && !breach)
  {
    NothingWraps(l, s, o);
    TripsExactlyOnBreach(l, s.gate, o);
  }

  function OrdersOf(a: seq<Acceptance>): (os: seq<ChildOrder>)
    ensures |os| == |a|
  {
    seq(|a|, i requires 0 <= i < |a| => a[i].order)
  }

  /** `apply` is the session step of the same name: same gate, and the orders it adds to
      the accepted queue are the ones the session accepts. */
  lemma {:induction false} ApplyIsPass(l: Limits, a: Applied, s: Session, os: seq<ChildOrder>)
    requires a.gate == s.gate && |a.accepted| <= MAX_CHILD_ORDERS
    ensures var r := ApplyAll(l, a, os);
            var t := PassAll(l, s, os, MAX_CHILD_ORDERS - |a.accepted|);
            && r.gate == t.gate && |r.accepted| <= MAX_CHILD_ORDERS
            && s.since <= t.since && r.accepted == a.accepted + OrdersOf(t.since[|s.since|..])
    decreases |os|
  {
    if os != [] {
      var n := |os| - 1;
      var room := MAX_CHILD_ORDERS - |a.accepted|;
      ApplyIsPass(l, a, s, os[..n]);
      PassAllSnoc(l, s, os[..n], os[n], room);
      assert os[..n] + [os[n]] == os;
    }
  }

  lemma {:induction false} PassAllSnoc(l: Limits, s: Session, os: seq<ChildOrder>, o: ChildOrder, room: nat)
    ensures var t := PassAll(l, s, os, room);
            && |s.since| <= |t.since| <= |s.since| + room
            && PassAll(l, s, os + [o], room) == PassOne(l, t, o, room > |t.since| - |s.since|)
    decreases |os|
  {
    if os == [] {
      assert (os + [o])[1..] == [];
    } else {
      var s' := PassOne(l, s, os[0], room > 0);
      PassAllSnoc(l, s', os[1..], o, if |s'.since| > |s.since| then room - 1 else room);
      assert (os + [o])[1..] == os[1..] + [o];
    }
  }

  /** Orders offered to a gate with so much room behind it; those accepted come back with
      the reference price they were accepted at. */
  method Offer(gate: RiskGate, os: seq<ChildOrder>, room: nat, ghost since: seq<Acceptance>)
    returns (accepted: seq<Acceptance>)
    modifies gate
    ensures Session(gate.State(), since + accepted)
         == PassAll(gate.limits, Session(old(gate.State()), since), os, room)
  {
    accepted := [];
    var i, left := 0, room;
    assert since + [] == since;
    while i < |os|
      invariant 0 <= i <= |os|
      invariant PassAll(gate.limits, Session(gate.State(), since + accepted), os[i..], left)
             == PassAll(gate.limits, Session(old(gate.State()), since), os, room)
    {
      assert os[i..][0] == os[i] && os[i..][1..] == os[i + 1..];
      var r := gate.Check(os[i]);
      if r == Passed && left > 0 {
        assert since + (accepted + [Acceptance(os[i], gate.reference)])
            == (since + accepted) + [Acceptance(os[i], gate.reference)];
        gate.Record(os[i]);
        accepted := accepted + [Acceptance(os[i], gate.reference)];
        left := left - 1;
      }
      i := i + 1;
    }
  }

  /** The gate itself, driven through any session. */
  method Drive(gate: RiskGate, es: seq<Event>) returns (since: seq<Acceptance>)
    modifies gate
    ensures Session(gate.State(), since) == Play(gate.limits, Session(old(gate.State()), []), es)
  {
    since := [];
    var i := 0;
    while i < |es|
      invariant 0 <= i <= |es|
      invariant Play(gate.limits, Session(gate.State(), since), es[i..])
             == Play(gate.limits, Session(old(gate.State()), []), es)
    {
      assert es[i..][0] == es[i] && es[i..][1..] == es[i + 1..];
      match es[i] {
        case SetReference(p) => gate.SetReferencePrice(p);
        case Ask(o) => var _ := gate.Check(o);
        case Pass(os, room) =>
          var more := Offer(gate, os, room, since);
          since := since + more;
        case Reset =>
          gate.Reset();
          since := [];
      }
      i := i + 1;
    }
  }
}

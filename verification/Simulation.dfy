/** The three books side by side: the flat-array ladder, the map ladders and the naive
    oracle show the same thing after every operation of every run, except where the
    ladder refuses a price. */
module Simulation {
  import opened Machine
  import opened BookSpec
  import opened BookEffects
  import opened PriceGrid
  import opened LadderSpec
  import opened LadderBooks
  import opened OrderBooks
  import opened ReferenceModels
  import opened Seqs

  /** The next operation would rest a new order at a price the ladder refuses. */
  predicate RefusesNext(s: LadderState, w: WindowOf, op: Op)
    requires s.grid.Valid()
  {
    match op
    case Add(ref, _, _, price) => ref !in s.orders && Refused(s.grid, w, price)
    case Replace(orig, next, _, price) =>
      orig in s.orders && next !in s.orders - {orig} && Refused(s.grid, w, price)
    case _ => false
  }

  ghost predicate NeverRefuses(s: LadderState, w: WindowOf, ops: seq<Op>)
    requires s.Valid()
    decreases |ops|
  {
    if ops == [] then true
    else
      LadderApplyIsValid(s, w, ops[0]);
      !RefusesNext(s, w, ops[0]) && NeverRefuses(LadderApply(s, w, ops[0]).state, w, ops[1..])
  }

  /** Return value and view of the ladder after every operation of a run. */
  ghost function LadderTrace(s: LadderState, w: WindowOf, ops: seq<Op>): seq<(bool, View)>
    requires s.Valid()
    decreases |ops|
  {
    if ops == [] then []
    else
      LadderApplyIsValid(s, w, ops[0]);
      var next := LadderApply(s, w, ops[0]);
      [(next.ok, Observe(next.state.orders, Bids, Asks))] + LadderTrace(next.state, w, ops[1..])
  }

  lemma AddAgrees(s: LadderState, w: WindowOf, ref: Ref, side: Side, shares: u32, price: u32)
    requires s.Valid()
    ensures var l := LadderAdd(s, w, ref, side, shares, price);
            var m := AddTo(s.orders, ref, side, shares, price);
            if ref !in s.orders && Refused(s.grid, w, price) then !l.ok && m.ok && l.state.orders == s.orders
            else l.ok == m.ok && l.state.orders == m.orders
  {
    RoomExtends(s.grid, w, price);
    var room := Room(s.grid, w, price);
    if room.Some? {
      AlignedIsAbsolute(room.value, price);
    }
  }

  /** One operation: the ladder and the map book agree on the boolean and the contents,
      or the ladder alone says no to a price it refuses, and from then on lacks an order. */
  lemma StepAgrees(s: LadderState, w: WindowOf, op: Op)
    requires s.Valid()
    ensures var l, m := LadderApply(s, w, op), Apply(s.orders, op);
            if RefusesNext(s, w, op) then !l.ok && m.ok && l.state.orders != m.orders
            else l.ok == m.ok && l.state.orders == m.orders
  {
    match op
    case Add(ref, side, shares, price) => AddAgrees(s, w, ref, side, shares, price);
    case Replace(orig, next, shares, price) =>
      if orig in s.orders {
        AddAgrees(s.(orders := s.orders - {orig}), w, next, s.orders[orig].side, shares, price);
      }
    case _ =>
  }

  /** Over every run, growing windows included, the ladder and the map book give the
      same booleans and the same best quotes, open orders and level counts after every
      step, exactly when no step rests a new order at a refused price. */
  lemma {:induction false} LadderSimulatesMapBook(s: LadderState, w: WindowOf, ops: seq<Op>)
    requires s.Valid()
    ensures LadderTrace(s, w, ops) == Trace(s.orders, ops, Bids, Asks) <==> NeverRefuses(s, w, ops)
    decreases |ops|
  {
    if ops != [] {
      var op := ops[0];
      LadderApplyIsValid(s, w, op);
      StepAgrees(s, w, op);
      var l, m := LadderApply(s, w, op), Apply(s.orders, op);
      var lt, mt := LadderTrace(l.state, w, ops[1..]), Trace(m.orders, ops[1..], Bids, Asks);
      var lh, mh := (l.ok, Observe(l.state.orders, Bids, Asks)), (m.ok, Observe(m.orders, Bids, Asks));
      assert LadderTrace(s, w, ops) == [lh] + lt;
      assert Trace(s.orders, ops, Bids, Asks) == [mh] + mt;
      if RefusesNext(s, w, op) {
        assert ([lh] + lt)[0] != ([mh] + mt)[0];
      } else {
        LadderSimulatesMapBook(l.state, w, ops[1..]);
        assert ([lh] + lt)[1..] == lt && ([mh] + mt)[1..] == mt;
      }
    }
  }

  /** When a replace of a known original fails: in the map book if and only if the new
      reference is that of another resting order, in the ladder also if and only if the
      price is refused. It has then retired the original, so false leaves the orders as they
      were exactly when the original was unknown. */
  lemma FailedReplaceRetires(s: LadderState, w: WindowOf, orig: Ref, next: Ref, shares: u32, price: u32)
    requires s.Valid()
    ensures var l, m := LadderSwap(s, w, orig, next, shares, price), Swap(s.orders, orig, next, shares, price);
            var taken := next in s.orders && next != orig;
            && (orig in s.orders ==> (!m.ok <==> taken) && (!l.ok <==> taken || Refused(s.grid, w, price)))
            && (!m.ok ==> m.orders == s.orders - {orig} && (m.orders == s.orders <==> orig !in s.orders))
            && (!l.ok ==> l.state.orders == s.orders - {orig} && (l.state.orders == s.orders <==> orig !in s.orders))
  {
    if orig in s.orders {
      AddAgrees(s.(orders := s.orders - {orig}), w, next, s.orders[orig].side, shares, price);
    } else {
      assert s.orders - {orig} == s.orders;
    }
  }

  /** One replace that fails: the new reference is taken, and the original is gone from
      both books with nothing in its place. */
  lemma ReplaceOntoAnother(s: LadderState, w: WindowOf, a: Order, b: Order)
    requires s.Valid() && s.orders == map[1 := a, 2 := b]
    ensures var l, m := LadderSwap(s, w, 1, 2, a.shares, a.price), Swap(s.orders, 1, 2, a.shares, a.price);
            !l.ok && !m.ok && l.state.orders == m.orders == map[2 := b]
  {
    FailedReplaceRetires(s, w, 1, 2, a.shares, a.price);
    assert s.orders - {1} == map[2 := b];
  }

  // ---------------------------------------------------------------- the classes, driven together

  method FeedLadder(ladder: LadderBook, op: Op) returns (ok: bool)
    requires ladder.Valid()
    modifies ladder, ladder.bids, ladder.asks
    ensures ladder.Valid()
    ensures ladder.bids == old(ladder.bids) || fresh(ladder.bids)
    ensures ladder.asks == old(ladder.asks) || fresh(ladder.asks)
    ensures LadderOutcome(ladder.State(), ok) == LadderApply(old(ladder.State()), ladder.windowOf, op)
  {
    match op
    case Add(ref, side, shares, price) => ok := ladder.Add(ref, side, shares, price);
    case Execute(ref, shares) => ok := ladder.Execute(ref, shares);
    case Cancel(ref, shares) => ok := ladder.Cancel(ref, shares);
    case Remove(ref) => ok := ladder.Remove(ref);
    case Replace(orig, next, shares, price) => ok := ladder.Replace(orig, next, shares, price);
  }

  method FeedMap(book: OrderBook, op: Op) returns (ok: bool)
    requires book.Valid()
    modifies book
    ensures book.Valid()
    ensures Outcome(book.orders, ok) == Apply(old(book.orders), op)
  {
    match op
    case Add(ref, side, shares, price) => ok := book.Add(ref, side, shares, price);
    case Execute(ref, shares) => ok := book.Execute(ref, shares);
    case Cancel(ref, shares) => ok := book.Cancel(ref, shares);
    case Remove(ref) => ok := book.Remove(ref);
    case Replace(orig, next, shares, price) => ok := book.Replace(orig, next, shares, price);
  }

  method FeedOracle(oracle: ReferenceModel, op: Op) returns (ok: bool)
    modifies oracle
    ensures Outcome(oracle.orders, ok) == Apply(old(oracle.orders), op)
  {
    match op
    case Add(ref, side, shares, price) => ok := oracle.Add(ref, side, shares, price);
    case Execute(ref, shares) => ok := oracle.ReduceOrder(ref, shares);
    case Cancel(ref, shares) => ok := oracle.ReduceOrder(ref, shares);
    case Remove(ref) => ok := oracle.Remove(ref);
    case Replace(orig, next, shares, price) => ok := oracle.Replace(orig, next, shares, price);
  }

  /** The full-day comparison: feed all three the same events and compare what they
      return and show after each. It stops at a disagreement exactly when the ladder
      refuses a price somewhere in the day. */
  method CompareOverDay(basePrice: u32, tickSize: u32, windowOf: WindowOf, ops: seq<Op>) returns (agreed: bool)
    requires forall i | 0 <= i < |ops| :: TwoSidedOp(ops[i])
    ensures agreed <==> NeverRefuses(LadderState(Initial(basePrice, tickSize, windowOf), map[]), windowOf, ops)
  {
    var ladder := new LadderBook(basePrice, tickSize, windowOf);
    var book := new OrderBook();
    var oracle := new ReferenceModel();
    ghost var start := ladder.State();
    var i := 0;
    while i < |ops|
      invariant 0 <= i <= |ops|
      invariant fresh(ladder.bids) && fresh(ladder.asks)
      invariant ladder.Valid() && book.Valid() && ladder.windowOf == windowOf
      invariant ladder.orders == book.orders == oracle.orders && TwoSided(ladder.orders)
      invariant start.Valid() && ladder.State().Valid()
      invariant NeverRefuses(start, windowOf, ops) <==> NeverRefuses(ladder.State(), windowOf, ops[i..])
    {
      StepAgrees(ladder.State(), windowOf, ops[i]);
      LadderApplyIsValid(ladder.State(), windowOf, ops[i]);
      TwoSidedIsKept(ladder.orders, ops[i]);
      assert ops[i..][0] == ops[i] && ops[i..][1..] == ops[i + 1..];
      var same := FeedAll(ladder, book, oracle, ops[i]);
      if !same {
        return false;
      }
      i := i + 1;
    }
    agreed := true;
  }

  /** After one event the three agree in result and view exactly when the ladder did not
      refuse the price of a new order. */
  lemma SameAfterIff(s: LadderState, w: WindowOf, op: Op)
    requires s.Valid() && TwoSided(s.orders) && TwoSidedOp(op)
    ensures var l, m := LadderApply(s, w, op), Apply(s.orders, op);
            && (RefusesNext(s, w, op) ==> l.ok != m.ok)
            && (!RefusesNext(s, w, op) ==>
                  l.ok == m.ok && l.state.orders == m.orders
                  && Observe(m.orders, Bids, Asks) == Observe(m.orders, Only(BUY), Only(SELL)))
  {
    StepAgrees(s, w, op);
    TwoSidedIsKept(s.orders, op);
    TwoSidedLooksTheSame(Apply(s.orders, op).orders);
  }

  /** One look at each book, all holding the same orders. */
  method LookAtAll(ladder: LadderBook, book: OrderBook, oracle: ReferenceModel) returns (v1: View, v2: View, v3: View)
    requires ladder.Valid() && book.Valid()
    ensures v1 == Observe(ladder.orders, Bids, Asks) && v2 == Observe(book.orders, Bids, Asks)
    ensures v3 == Observe(oracle.orders, Only(BUY), Only(SELL))
  {
    v1 := ladder.Look();
    v2 := book.Look();
    v3 := oracle.Look();
  }

  /** One event into each of the three books. */
  method FeedEach(ladder: LadderBook, book: OrderBook, oracle: ReferenceModel, op: Op)
    returns (ok1: bool, ok2: bool, ok3: bool)
    requires ladder.Valid() && book.Valid()
    modifies ladder, ladder.bids, ladder.asks, book, oracle
    ensures ladder.Valid() && book.Valid()
    ensures ladder.bids == old(ladder.bids) || fresh(ladder.bids)
    ensures ladder.asks == old(ladder.asks) || fresh(ladder.asks)
    ensures LadderOutcome(ladder.State(), ok1) == LadderApply(old(ladder.State()), ladder.windowOf, op)
    ensures Outcome(book.orders, ok2) == Apply(old(book.orders), op)
    ensures Outcome(oracle.orders, ok3) == Apply(old(oracle.orders), op)
  {
    ok2 := FeedMap(book, op);
    ok3 := FeedOracle(oracle, op);
    ok1 := FeedLadder(ladder, op);
  }

  /** The comparison after an event: what the books returned, and one look at each. */
  method Compare(ladder: LadderBook, book: OrderBook, oracle: ReferenceModel,
                 ok1: bool, ok2: bool, ok3: bool, ghost before: LadderState, ghost op: Op) returns (same: bool)
    requires ladder.Valid() && book.Valid() && before.Valid() && TwoSided(before.orders) && TwoSidedOp(op)
    requires ladder.orders == LadderApply(before, ladder.windowOf, op).state.orders
    requires ok1 == LadderApply(before, ladder.windowOf, op).ok
    requires Outcome(book.orders, ok2) == Outcome(oracle.orders, ok3) == Apply(before.orders, op)
    ensures same <==> !RefusesNext(before, ladder.windowOf, op)
    ensures same ==> ladder.orders == book.orders == oracle.orders
  {
    SameAfterIff(before, ladder.windowOf, op);
    var v1, v2, v3 := LookAtAll(ladder, book, oracle);
    same := ok1 == ok2 == ok3 && v1 == v2 == v3;
  }

  /** One event into all three books, then one look at each. */
  method FeedAll(ladder: LadderBook, book: OrderBook, oracle: ReferenceModel, op: Op) returns (same: bool)
    requires ladder.Valid() && book.Valid() && ladder.State().Valid()
    requires ladder.orders == book.orders == oracle.orders && TwoSided(ladder.orders) && TwoSidedOp(op)
    modifies ladder, ladder.bids, ladder.asks, book, oracle
    ensures ladder.Valid() && book.Valid()
    ensures ladder.bids == old(ladder.bids) || fresh(ladder.bids)
    ensures ladder.asks == old(ladder.asks) || fresh(ladder.asks)
    ensures ladder.State() == LadderApply(old(ladder.State()), ladder.windowOf, op).state
    ensures same <==> !RefusesNext(old(ladder.State()), ladder.windowOf, op)
    ensures same ==> ladder.orders == book.orders == oracle.orders
  {
    ghost var before := ladder.State();
    var ok1, ok2, ok3 := FeedEach(ladder, book, oracle, op);
    same := Compare(ladder, book, oracle, ok1, ok2, ok3, before, op);
  }

  // ---------------------------------------------------------------- what an operation leaves

  /** An execution or a cancellation in all three books: the same order shrinks by the same
      shares, or is gone. */
  method ReduceEverywhere(ladder: LadderBook, book: OrderBook, oracle: ReferenceModel,
                          cancel: bool, ref: Ref, shares: u32)
    returns (ok1: bool, ok2: bool, ok3: bool)
    requires ladder.Valid() && book.Valid()
    modifies ladder, ladder.bids, ladder.asks, book, oracle
    ensures ladder.Valid() && book.Valid()
    ensures LeavesTheRest(old(ladder.orders), ref, shares, ladder.orders, ok1)
    ensures LeavesTheRest(old(book.orders), ref, shares, book.orders, ok2)
    ensures LeavesTheRest(old(oracle.orders), ref, shares, oracle.orders, ok3)
  {
    ok1 := ReduceInLadder(ladder, cancel, ref, shares);
    ok2 := ReduceInMap(book, cancel, ref, shares);
    ok3 := ReduceInOracle(oracle, cancel, ref, shares);
  }

  method ReduceInLadder(ladder: LadderBook, cancel: bool, ref: Ref, shares: u32) returns (ok: bool)
    requires ladder.Valid()
    modifies ladder, ladder.bids, ladder.asks
    ensures ladder.Valid() && LeavesTheRest(old(ladder.orders), ref, shares, ladder.orders, ok)
  {
    ReductionLeavesTheRest(ladder.orders, ref, shares);
    if cancel {
      ok := ladder.Cancel(ref, shares);
    } else {
      ok := ladder.Execute(ref, shares);
    }
  }

  method ReduceInMap(book: OrderBook, cancel: bool, ref: Ref, shares: u32) returns (ok: bool)
    requires book.Valid()
    modifies book
    ensures book.Valid() && LeavesTheRest(old(book.orders), ref, shares, book.orders, ok)
  {
    ReductionLeavesTheRest(book.orders, ref, shares);
    if cancel {
      ok := book.Cancel(ref, shares);
    } else {
      ok := book.Execute(ref, shares);
    }
  }

  method ReduceInOracle(oracle: ReferenceModel, cancel: bool, ref: Ref, shares: u32) returns (ok: bool)
    modifies oracle
    ensures LeavesTheRest(old(oracle.orders), ref, shares, oracle.orders, ok)
  {
    ReductionLeavesTheRest(oracle.orders, ref, shares);
    ok := FeedOracle(oracle, if cancel then Cancel(ref, shares) else Execute(ref, shares));
  }

  /** A look before and one after: in each of the three books a quote that is not emptied
      loses exactly the smaller of what was asked and what rested, and only if it was hit. */
  method LookReduceLook(ladder: LadderBook, book: OrderBook, oracle: ReferenceModel,
                        cancel: bool, ref: Ref, shares: u32, ghost bids: bool)
    returns (v1: View, v2: View, v3: View, u1: View, u2: View, u3: View)
    requires ladder.Valid() && book.Valid() && ladder.orders == book.orders == oracle.orders
    requires ref in book.orders && TwoSided(book.orders)
    modifies ladder, ladder.bids, ladder.asks, book, oracle
    ensures QuoteLoses(old(book.orders), ref, shares, bids, v1, u1)
    ensures QuoteLoses(old(book.orders), ref, shares, bids, v2, u2)
    ensures QuoteLoses(old(book.orders), ref, shares, bids, v3, u3)
  {
    ghost var orders := book.orders;
    var op := if cancel then Cancel(ref, shares) else Execute(ref, shares);
    ReductionLeavesTheRest(orders, ref, shares);
    QuoteAfterReduction(orders, ref, shares, bids);
    TwoSidedLooksTheSame(orders);
    TwoSidedIsKept(orders, op);
    TwoSidedLooksTheSame(Apply(orders, op).orders);
    v1, v2, v3 := LookAtAll(ladder, book, oracle);
    var _, _, _ := ReduceEverywhere(ladder, book, oracle, cancel, ref, shares);
    u1, u2, u3 := LookAtAll(ladder, book, oracle);
  }

  /** What the ladder refuses, in the numbers of its window: a price off the tick grid, or
      one outside the window whose end of a wider window lies more than 8,000,000 ticks
      from the opposite end of the present one. */
  lemma RefusedIff(g: Grid, w: WindowOf, price: u32)
    requires g.Valid()
    ensures Refused(g, w, price) <==> price % g.tick != 0 || TooFar(g, w, price)
  {
    WideningIs(g, w, price);
  }

  /** An add to the ladder, in the same numbers: accepted exactly when the reference is new
      and the price is not refused, and then resting as given. */
  lemma LadderAdditionRests(s: LadderState, w: WindowOf, ref: Ref, side: Side, shares: u32, price: u32)
    requires s.Valid()
    ensures var a := LadderApply(s, w, Add(ref, side, shares, price));
            && a.ok == (ref !in s.orders && price % s.grid.tick == 0 && !TooFar(s.grid, w, price))
            && a.state.orders == (if a.ok then s.orders[ref := Order(shares, price, side)] else s.orders)
            && a.state.grid == (if TooFar(s.grid, w, price) then s.grid else Reach(s.grid, w, price))
  {
    WideningIs(s.grid, w, price);
    AddAgrees(s, w, ref, side, shares, price);
  }

  /** A replace in the ladder: as in the map book, unless the price is refused. */
  lemma LadderReplacementRests(s: LadderState, w: WindowOf, orig: Ref, next: Ref, shares: u32, price: u32)
    requires s.Valid()
    ensures var a := LadderApply(s, w, Replace(orig, next, shares, price));
            && a.ok == (orig in s.orders && (next == orig || next !in s.orders)
                        && price % s.grid.tick == 0 && !TooFar(s.grid, w, price))
            && (a.ok ==> a.state.orders == (s.orders - {orig})[next := Order(shares, price, s.orders[orig].side)])
            && (!a.ok ==> a.state.orders == s.orders - {orig})
  {
    if orig in s.orders {
      LadderAdditionRests(s.(orders := s.orders - {orig}), w, next, s.orders[orig].side, shares, price);
    } else {
      assert s.orders - {orig} == s.orders;
    }
  }

  // ---------------------------------------------------------------- watching the classes

  /** What a caller sees of a ladder over a run: each return value, and a look after it. */
  method WatchLadder(ladder: LadderBook, ops: seq<Op>) returns (seen: seq<(bool, View)>)
    requires ladder.Valid() && ladder.State().Valid()
    modifies ladder, ladder.bids, ladder.asks
    ensures seen == LadderTrace(old(ladder.State()), ladder.windowOf, ops)
  {
    seen := [];
    ghost var start := ladder.State();
    var i := 0;
    while i < |ops|
      invariant 0 <= i <= |ops| && ladder.Valid() && ladder.State().Valid() && start.Valid()
      invariant ladder.bids == old(ladder.bids) || fresh(ladder.bids)
      invariant ladder.asks == old(ladder.asks) || fresh(ladder.asks)
      invariant seen + LadderTrace(ladder.State(), ladder.windowOf, ops[i..])
             == LadderTrace(start, ladder.windowOf, ops)
    {
      assert ops[i..][0] == ops[i] && ops[i..][1..] == ops[i + 1..];
      LadderApplyIsValid(ladder.State(), ladder.windowOf, ops[i]);
      var ok := FeedLadder(ladder, ops[i]);
      var view := ladder.Look();
      Regroup(seen, [(ok, view)], LadderTrace(ladder.State(), ladder.windowOf, ops[i + 1..]));
      seen := seen + [(ok, view)];
      i := i + 1;
    }
  }

  method WatchMap(book: OrderBook, ops: seq<Op>) returns (seen: seq<(bool, View)>)
    requires book.Valid()
    modifies book
    ensures seen == Trace(old(book.orders), ops, Bids, Asks)
  {
    seen := [];
    var i := 0;
    while i < |ops|
      invariant 0 <= i <= |ops| && book.Valid()
      invariant seen + Trace(book.orders, ops[i..], Bids, Asks) == Trace(old(book.orders), ops, Bids, Asks)
    {
      assert ops[i..][0] == ops[i] && ops[i..][1..] == ops[i + 1..];
      var ok := FeedMap(book, ops[i]);
      var view := book.Look();
      Regroup(seen, [(ok, view)], Trace(book.orders, ops[i + 1..], Bids, Asks));
      seen := seen + [(ok, view)];
      i := i + 1;
    }
  }

  method WatchOracle(oracle: ReferenceModel, ops: seq<Op>) returns (seen: seq<(bool, View)>)
    modifies oracle
    ensures seen == Trace(old(oracle.orders), ops, Only(BUY), Only(SELL))
  {
    seen := [];
    var i := 0;
    while i < |ops|
      invariant 0 <= i <= |ops|
      invariant seen + Trace(oracle.orders, ops[i..], Only(BUY), Only(SELL))
             == Trace(old(oracle.orders), ops, Only(BUY), Only(SELL))
    {
      assert ops[i..][0] == ops[i] && ops[i..][1..] == ops[i + 1..];
      var ok := FeedOracle(oracle, ops[i]);
      var view := oracle.Look();
      Regroup(seen, [(ok, view)], Trace(oracle.orders, ops[i + 1..], Only(BUY), Only(SELL)));
      seen := seen + [(ok, view)];
      i := i + 1;
    }
  }
}

/** The naive oracle: a locator only, scanned afresh for every question. */
module ReferenceModels {
  import opened Machine
  import opened Extremes
  import opened BookSpec

  /** Prices of the orders of one side, all but those still to be visited. */
  ghost function SeenPrices(orders: Orders, side: Side, rest: set<Ref>): set<u32> {
    set r | r in orders && r !in rest && orders[r].side == side :: orders[r].price
  }

  ghost predicate BestSoFar(ps: set<u32>, highest: bool, best: Option<u32>) {
    match best
    case None => ps == {}
    case Some(p) => IsBest(ps, highest, p)
  }

  lemma SeeOneMore(orders: Orders, side: Side, rest: set<Ref>, r: Ref)
    requires r in orders && r in rest
    ensures SeenPrices(orders, side, rest - {r})
         == SeenPrices(orders, side, rest) + (if orders[r].side == side then {orders[r].price} else {})
  {
  }

  lemma SeenAll(orders: Orders, side: Side)
    ensures SeenPrices(orders, side, {}) == Prices(orders, Only(side))
    ensures SeenPrices(orders, side, orders.Keys) == {}
  {
  }

  lemma SumOneVisited(orders: Orders, at: set<Ref>, rest: set<Ref>, r: Ref)
    requires at <= orders.Keys && r in rest
    ensures SumShares(orders, at - (rest - {r}))
         == SumShares(orders, at - rest) + (if r in at then orders[r].shares else 0)
  {
    var before, now := at - rest, at - (rest - {r});
    if r in at {
      assert now - {r} == before;
      SumWithout(orders, now, r);
      assert SumShares(orders, now) == orders[r].shares + SumShares(orders, before);
    } else {
      assert now == before;
    }
  }

  predicate Distinct(ps: seq<u32>) {
    forall i, j | 0 <= i < j < |ps| :: ps[i] != ps[j]
  }

  lemma {:induction false} DistinctCount(ps: seq<u32>, s: set<u32>)
    requires Distinct(ps) && forall p: u32 :: p in s <==> p in ps
    ensures |s| == |ps|
    decreases |ps|
  {
    if ps == [] {
      assert s == {};
    } else {
      var n := |ps| - 1;
      DistinctCount(ps[..n], s - {ps[n]});
    }
  }

  class ReferenceModel {
    var orders: Orders

    constructor ()
      ensures orders == map[]
    {
      orders := map[];
    }

    method Add(ref: Ref, side: Side, shares: u32, price: u32) returns (ok: bool)
      modifies this
      ensures Outcome(orders, ok) == AddTo(old(orders), ref, side, shares, price)
    {
      ok := ref !in orders;
      if ok {
        orders := orders[ref := Order(shares, price, side)];
      }
    }

    /** `execute` and `cancel` alike. */
    method ReduceOrder(ref: Ref, shares: u32) returns (ok: bool)
      modifies this
      ensures Outcome(orders, ok) == Reduce(old(orders), ref, shares)
    {
      if ref !in orders {
        return false;
      }
      var o := orders[ref];
      var qty := if shares < o.shares then shares else o.shares;
      orders := orders[ref := o.(shares := o.shares - qty)];
      if orders[ref].shares == 0 {
        orders := orders - {ref};
      }
      ok := true;
    }

    method Remove(ref: Ref) returns (ok: bool)
      modifies this
      ensures Outcome(orders, ok) == Take(old(orders), ref)
    {
      ok := ref in orders;
      orders := orders - {ref};
    }

    method Replace(orig: Ref, next: Ref, shares: u32, price: u32) returns (ok: bool)
      modifies this
      ensures Outcome(orders, ok) == Swap(old(orders), orig, next, shares, price)
    {
      if orig !in orders {
        return false;
      }
      var side := orders[orig].side;
      orders := orders - {orig};
      ok := Add(next, side, shares, price);
    }

    /** Two passes over the locator, in whatever order it yields its entries. */
    method Best(side: Side) returns (q: Option<Quote>)
      ensures q == BestQuote(orders, Only(side))
    {
      var best: Option<u32> := BestPrice(side);
      if best.None? {
        return None;
      }
      BestIsUnique(Prices(orders, Only(side)), side == BUY, best.value);
      var shares := SharesAt(side, best.value);
      q := Some(Quote(best.value, shares));
    }

    method SharesAt(side: Side, price: u32) returns (shares: nat)
      ensures shares == LevelAt(orders, Only(side), price).shares
    {
      shares := 0;
      var m, rest := orders, orders.Keys;
      ghost var at := RefsAt(m, Only(side), price);
      assert at - rest == {};
      while rest != {}
        invariant rest <= m.Keys
        invariant shares == SumShares(m, at - rest)
        decreases |rest|
      {
        var r :| r in rest;
        SumOneVisited(m, at, rest, r);
        rest := rest - {r};
        if m[r].side == side && m[r].price == price {
          shares := shares + m[r].shares;
        }
      }
      assert at - {} == at;
    }

    method BestPrice(side: Side) returns (best: Option<u32>)
      ensures BestSoFar(Prices(orders, Only(side)), side == BUY, best)
    {
      best := None;
      SeenAll(orders, side);
      var m, rest := orders, orders.Keys;
      while rest != {}
        invariant rest <= m.Keys
        invariant BestSoFar(SeenPrices(m, side, rest), side == BUY, best)
        decreases |rest|
      {
        var r :| r in rest;
        SeeOneMore(m, side, rest, r);
        rest := rest - {r};
        var o := m[r];
        if o.side == side {
          if best.None? || (if side == BUY then o.price > best.value else o.price < best.value) {
            best := Some(o.price);
          }
        }
      }
    }

    method LevelCount(side: Side) returns (n: nat)
      ensures n == |Prices(orders, Only(side))|
    {
      var prices: seq<u32> := [];
      SeenAll(orders, side);
      var m, rest := orders, orders.Keys;
      while rest != {}
        invariant rest <= m.Keys
        invariant Distinct(prices)
        invariant forall p: u32 :: p in SeenPrices(m, side, rest) <==> p in prices
        decreases |rest|
      {
        var r :| r in rest;
        SeeOneMore(m, side, rest, r);
        rest := rest - {r};
        var o := m[r];
        if o.side == side {
          if o.price !in prices {
            prices := prices + [o.price];
          }
        }
      }
      DistinctCount(prices, Prices(orders, Only(side)));
      n := |prices|;
    }

    method Look() returns (v: View)
      ensures v == Observe(orders, Only(BUY), Only(SELL))
    {
      var bid := Best(BUY);
      var ask := Best(SELL);
      var bidLevels := LevelCount(BUY);
      var askLevels := LevelCount(SELL);
      v := View(bid, ask, |orders|, bidLevels, askLevels);
    }
  }

  // ---------------------------------------------------------------- scan against ladders

  /** Only 'B' and 'S' orders rest. */
  ghost predicate TwoSided(orders: Orders) {
    forall r | r in orders :: orders[r].side.code == 0x42 || orders[r].side.code == 0x53
  }

  predicate TwoSidedOp(op: Op) {
    op.Add? ==> op.side == BUY || op.side == SELL
  }

  /** The books and the oracle agree on the depth at every price exactly when no order
      of a side other than 'B' or 'S' is resting: such an order counts as an ask in the
      books and is invisible to the oracle. */
  lemma DepthAgreesIffTwoSided(orders: Orders)
    ensures (forall p: u32 :: LevelAt(orders, Asks, p) == LevelAt(orders, Only(SELL), p)) <==> TwoSided(orders)
  {
    if TwoSided(orders) {
      forall p: u32
        ensures LevelAt(orders, Asks, p) == LevelAt(orders, Only(SELL), p)
      {
        assert RefsAt(orders, Asks, p) == RefsAt(orders, Only(SELL), p);
      }
    } else {
      var r :| r in orders && orders[r].side != BUY && orders[r].side != SELL;
      var p := orders[r].price;
      var asks, sells := RefsAt(orders, Asks, p), RefsAt(orders, Only(SELL), p);
      assert r in asks && r !in sells && sells <= asks - {r};
      FewerIn(sells, asks - {r});
      assert LevelAt(orders, Asks, p) != LevelAt(orders, Only(SELL), p);
    }
  }

  lemma ForeignIsAsk(r: Ref, o: Order)
    requires o.side != BUY
    ensures var v := Observe(map[r := o], Bids, Asks);
            v.askLevels == 1 && v.ask == Some(Quote(o.price, o.shares))
  {
    var m := map[r := o];
    assert Prices(m, Asks) == {o.price} by {
      assert r in m && On(m[r], Asks) && m[r].price == o.price;
    }
    assert RefsAt(m, Asks, o.price) == {r};
    SumWithout(m, {r}, r);
    assert {r} - {r} == {};
  }

  lemma ForeignIsNoSell(r: Ref, o: Order)
    requires o.side != SELL
    ensures var v := Observe(map[r := o], Only(BUY), Only(SELL));
            v.askLevels == 0 && v.ask == None
  {
    assert Prices(map[r := o], Only(SELL)) == {};
  }

  /** One resting order of any other side already tells them apart: an ask level in the
      books, nothing at all to the oracle. */
  lemma ForeignSideIsInvisible(r: Ref, side: Side, shares: u32, price: u32)
    requires side != BUY && side != SELL
    ensures var m := AddTo(map[], r, side, shares, price).orders;
            && Observe(m, Bids, Asks).askLevels == 1 && Observe(m, Bids, Asks).ask == Some(Quote(price, shares))
            && Observe(m, Only(BUY), Only(SELL)).askLevels == 0 && Observe(m, Only(BUY), Only(SELL)).ask == None
  {
    ForeignIsAsk(r, Order(shares, price, side));
    ForeignIsNoSell(r, Order(shares, price, side));
  }

  lemma {:induction false} FewerIn(a: set<Ref>, b: set<Ref>)
    requires a <= b
    ensures |a| <= |b|
    decreases |a|
  {
    if a != {} {
      var x :| x in a;
      FewerIn(a - {x}, b - {x});
    }
  }

  lemma TwoSidedLooksTheSame(orders: Orders)
    requires TwoSided(orders)
    ensures Observe(orders, Only(BUY), Only(SELL)) == Observe(orders, Bids, Asks)
  {
    assert Prices(orders, Bids) == Prices(orders, Only(BUY));
    assert Prices(orders, Asks) == Prices(orders, Only(SELL));
    forall p: u32
      ensures RefsAt(orders, Bids, p) == RefsAt(orders, Only(BUY), p)
      ensures RefsAt(orders, Asks, p) == RefsAt(orders, Only(SELL), p)
    {
    }
  }

  lemma TwoSidedIsKept(orders: Orders, op: Op)
    requires TwoSided(orders) && TwoSidedOp(op)
    ensures TwoSided(Apply(orders, op).orders)
  {
  }

  /** Return value and view after every operation of a run. */
  ghost function Trace(orders: Orders, ops: seq<Op>, bid: Pick, ask: Pick): seq<(bool, View)>
    decreases |ops|
  {
    if ops == [] then []
    else
      var next := Apply(orders, ops[0]);
      [(next.ok, Observe(next.orders, bid, ask))] + Trace(next.orders, ops[1..], bid, ask)
  }

  /** The next operation would rest an order of a side other than 'B' or 'S'. */
  predicate ForeignNext(orders: Orders, op: Op) {
    op.Add? && op.ref !in orders && op.side != BUY && op.side != SELL
  }

  lemma TwoSidedStepIff(orders: Orders, op: Op)
    requires TwoSided(orders)
    ensures TwoSided(Apply(orders, op).orders) <==> !ForeignNext(orders, op)
  {
    if ForeignNext(orders, op) {
      assert op.ref in Apply(orders, op).orders;
    }
  }

  ghost predicate NoForeign(orders: Orders, ops: seq<Op>)
    decreases |ops|
  {
    ops == [] || (!ForeignNext(orders, ops[0]) && NoForeign(Apply(orders, ops[0]).orders, ops[1..]))
  }

  ghost predicate SameDepth(orders: Orders) {
    forall p: u32 :: LevelAt(orders, Asks, p) == LevelAt(orders, Only(SELL), p)
  }

  /** Books and oracle agree on the depth at every price after every step. */
  ghost predicate SameDepthThroughout(orders: Orders, ops: seq<Op>)
    decreases |ops|
  {
    ops == [] ||
    var next := Apply(orders, ops[0]).orders;
    SameDepth(next) && SameDepthThroughout(next, ops[1..])
  }

  /** Over every run, zero-share orders, over-executes, duplicates and failed replaces
      included: the map-ladder book and the oracle agree on the depth at every price after
      every step if and only if no step rests an order of another side; and then they
      also return the same booleans and show the same view after every step. */
  lemma {:induction false} OracleAgreesOverRuns(orders: Orders, ops: seq<Op>)
    requires TwoSided(orders)
    ensures SameDepthThroughout(orders, ops) <==> NoForeign(orders, ops)
    ensures NoForeign(orders, ops) ==> Trace(orders, ops, Bids, Asks) == Trace(orders, ops, Only(BUY), Only(SELL))
    ensures (forall i | 0 <= i < |ops| :: TwoSidedOp(ops[i])) ==> NoForeign(orders, ops)
    decreases |ops|
  {
    if ops != [] {
      var next := Apply(orders, ops[0]).orders;
      TwoSidedStepIff(orders, ops[0]);
      DepthAgreesIffTwoSided(next);
      if TwoSided(next) {
        TwoSidedLooksTheSame(next);
        OracleAgreesOverRuns(next, ops[1..]);
      }
    }
  }
}

/** The map-ladder book: a locator of resting orders plus, per side, a sorted map
    from price to level. */
module OrderBooks {
  import opened Machine
  import opened BookSpec

  /** The ladder a scan of the locator prescribes. */
  ghost function Ladder(orders: Orders, k: Pick): map<u32, Level> {
    map p | p in Prices(orders, k) :: LevelAt(orders, k, p)
  }

  lemma NoOrdersNoShares(orders: Orders, k: Pick, p: u32)
    ensures LevelAt(orders, k, p).orders == 0 ==> LevelAt(orders, k, p) == EMPTY
  {
    SumBound(orders, RefsAt(orders, k, p));
  }

  /** What `sub_in` makes of a ladder. */
  function SubIn(m: map<u32, Level>, price: u32, qty: nat, gone: bool): map<u32, Level> {
    if price !in m then m
    else
      var l := Shrunk(m[price], qty, gone);
      if l.orders == 0 then m - {price} else m[price := l]
  }

  /** A ladder is determined by its levels: the occupied ones and no others. */
  lemma LadderIs(orders: Orders, k: Pick, m: map<u32, Level>)
    requires forall p: u32 {:trigger LevelAt(orders, k, p)} ::
               (p in m <==> LevelAt(orders, k, p).orders > 0) && (p in m ==> m[p] == LevelAt(orders, k, p))
    ensures Ladder(orders, k) == m
  {
    forall p: u32
      ensures p in Prices(orders, k) <==> p in m
      ensures p in m ==> m[p] == LevelAt(orders, k, p)
    {
      OccupiedIffPriced(orders, k, p);
    }
  }

  lemma LadderAfterAdd(orders: Orders, r: Ref, o: Order, k: Pick)
    requires r !in orders
    ensures Ladder(orders[r := o], k)
         == var m := Ladder(orders, k);
            if On(o, k)
            then m[o.price := Bumped(if o.price in m then m[o.price] else EMPTY, o.shares)]
            else m
  {
    var m, after := Ladder(orders, k), orders[r := o];
    var m' := if On(o, k) then m[o.price := Bumped(if o.price in m then m[o.price] else EMPTY, o.shares)] else m;
    forall p: u32
      ensures (p in m' <==> LevelAt(after, k, p).orders > 0) && (p in m' ==> m'[p] == LevelAt(after, k, p))
    {
      OccupiedIffPriced(orders, k, p);
      AddLevel(orders, r, o, k, p);
      NoOrdersNoShares(orders, k, p);
    }
    LadderIs(after, k, m');
  }

  lemma LadderAfterDrain(orders: Orders, r: Ref, qty: u32, k: Pick)
    requires r in orders && qty <= orders[r].shares
    ensures Ladder(Drain(orders, r, qty), k)
         == if On(orders[r], k)
            then SubIn(Ladder(orders, k), orders[r].price, qty, qty == orders[r].shares)
            else Ladder(orders, k)
  {
    var o := orders[r];
    var after := Drain(orders, r, qty);
    var m := Ladder(orders, k);
    var m' := if On(o, k) then SubIn(m, o.price, qty, qty == o.shares) else m;
    forall p: u32
      ensures (p in m' <==> LevelAt(after, k, p).orders > 0) && (p in m' ==> m'[p] == LevelAt(after, k, p))
    {
      OccupiedIffPriced(orders, k, p);
      OccupiedIffPriced(orders, k, o.price);
      DrainLevel(orders, r, qty, k, p);
      DrainLevel(orders, r, qty, k, o.price);
    }
    LadderIs(after, k, m');
  }

  class OrderBook {
    var bids: map<u32, Level>
    var asks: map<u32, Level>
    var orders: Orders

    /** Both ladders are exactly what a scan of the locator gives: no phantom level,
        no missing share. */
    ghost predicate Valid()
      reads this
    {
      bids == Ladder(orders, Bids) && asks == Ladder(orders, Asks)
    }

    constructor ()
      ensures Valid() && orders == map[]
    {
      bids, asks, orders := map[], map[], map[];
    }

    method Add(ref: Ref, side: Side, shares: u32, price: u32) returns (ok: bool)
      requires Valid()
      modifies this
      ensures Valid()
      ensures Outcome(orders, ok) == AddTo(old(orders), ref, side, shares, price)
    {
      if ref in orders {
        return false;
      }
      ghost var o := Order(shares, price, side);
      LadderAfterAdd(orders, ref, o, Bids);
      LadderAfterAdd(orders, ref, o, Asks);
      orders := orders[ref := Order(shares, price, side)];
      if side == BUY {
        bids := bids[price := Bumped(if price in bids then bids[price] else EMPTY, shares)];
      } else {
        asks := asks[price := Bumped(if price in asks then asks[price] else EMPTY, shares)];
      }
      ok := true;
    }

    method Execute(ref: Ref, shares: u32) returns (ok: bool)
      requires Valid()
      modifies this
      ensures Valid()
      ensures Outcome(orders, ok) == Reduce(old(orders), ref, shares)
    {
      ok := ReduceOrder(ref, shares);
    }

    method Cancel(ref: Ref, shares: u32) returns (ok: bool)
      requires Valid()
      modifies this
      ensures Valid()
      ensures Outcome(orders, ok) == Reduce(old(orders), ref, shares)
    {
      ok := ReduceOrder(ref, shares);
    }

    method Remove(ref: Ref) returns (ok: bool)
      requires Valid()
      modifies this
      ensures Valid()
      ensures Outcome(orders, ok) == Take(old(orders), ref)
    {
      if ref !in orders {
        return false;
      }
      var o := orders[ref];
      LadderAfterDrain(orders, ref, o.shares, Bids);
      LadderAfterDrain(orders, ref, o.shares, Asks);
      orders := orders - {ref};
      LevelSub(o.side, o.price, o.shares, true);
      ok := true;
    }

    method Replace(orig: Ref, next: Ref, shares: u32, price: u32) returns (ok: bool)
      requires Valid()
      modifies this
      ensures Valid()
      ensures Outcome(orders, ok) == Swap(old(orders), orig, next, shares, price)
    {
      if orig !in orders {
        return false;
      }
      var side := orders[orig].side;
      var _ := Remove(orig);
      ok := Add(next, side, shares, price);
    }

    method BestBid() returns (q: Option<Quote>)
      requires Valid()
      ensures q == BestQuote(orders, Bids)
    {
      assert bids.Keys == Prices(orders, Bids);
      if bids == map[] {
        return None;
      }
      var price := BestOf(bids.Keys, true);
      q := Some(Quote(price, bids[price].shares));
    }

    method BestAsk() returns (q: Option<Quote>)
      requires Valid()
      ensures q == BestQuote(orders, Asks)
    {
      assert asks.Keys == Prices(orders, Asks);
      if asks == map[] {
        return None;
      }
      var price := BestOf(asks.Keys, false);
      q := Some(Quote(price, asks[price].shares));
    }

    /** Every read-only accessor at once. */
    method Look() returns (v: View)
      requires Valid()
      ensures v == Observe(orders, Bids, Asks)
    {
      var bid := BestBid();
      var ask := BestAsk();
      assert bids.Keys == Prices(orders, Bids) && asks.Keys == Prices(orders, Asks);
      v := View(bid, ask, |orders|, |bids|, |asks|);
    }

    method ReduceOrder(ref: Ref, shares: u32) returns (ok: bool)
      requires Valid()
      modifies this
      ensures Valid()
      ensures Outcome(orders, ok) == Reduce(old(orders), ref, shares)
    {
      if ref !in orders {
        return false;
      }
      var o := orders[ref];
      var qty := if shares < o.shares then shares else o.shares;
      LadderAfterDrain(orders, ref, qty, Bids);
      LadderAfterDrain(orders, ref, qty, Asks);
      var left := o.shares - qty;
      if left == 0 {
        orders := orders - {ref};
      } else {
        orders := orders[ref := o.(shares := left)];
      }
      LevelSub(o.side, o.price, qty, left == 0);
      ok := true;
    }

    method LevelSub(side: Side, price: u32, shares: u32, orderGone: bool)
      modifies this`bids, this`asks
      ensures bids == if side == BUY then SubIn(old(bids), price, shares, orderGone) else old(bids)
      ensures asks == if side == BUY then old(asks) else SubIn(old(asks), price, shares, orderGone)
    {
      if side == BUY {
        bids := SubIn(bids, price, shares, orderGone);
      } else {
        asks := SubIn(asks, price, shares, orderGone);
      }
    }
  }
}

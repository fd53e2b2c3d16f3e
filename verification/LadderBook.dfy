/** The flat-array book: price levels in arrays indexed by tick, a best index tracked
    per side, cached level counts, and a window that is rebuilt wider on demand. */
module LadderBooks {
  import opened Machine
  import opened BookSpec
  import opened PriceGrid
  import opened LadderSpec

  class LadderBook {
    const tickSize: u32
    const windowOf: WindowOf
    var minPrice: u32
    var maxPrice: u32
    var numTicks: nat
    var bids: array<Level>
    var asks: array<Level>
    var bidLevelCount: nat
    var askLevelCount: nat
    var bestBidIdx: Option<nat>
    var bestAskIdx: Option<nat>
    var orders: Orders

    function Window(): Grid
      reads this`minPrice, this`maxPrice
    {
      Grid(tickSize, minPrice, maxPrice)
    }

    /** The part of the representation that does not mention the locator. */
    ghost predicate Sides()
      reads this`minPrice, this`maxPrice, this`numTicks, this`bids, this`asks, this`bidLevelCount, this`askLevelCount,
            this`bestBidIdx, this`bestAskIdx, bids, asks
    {
      && Window().Valid() && numTicks == Window().Ticks()
      && bids != asks && bids.Length == numTicks && asks.Length == numTicks
      && SideOk(bids[..], true, bidLevelCount, bestBidIdx)
      && SideOk(asks[..], false, askLevelCount, bestAskIdx)
    }

    /** Every slot is the level a scan of these orders gives at its price, counts and best
        indices are those of the slots. */
    ghost predicate Represents(m: Orders)
      reads this`minPrice, this`maxPrice, this`numTicks, this`bids, this`asks, this`bidLevelCount, this`askLevelCount,
            this`bestBidIdx, this`bestAskIdx, bids, asks
    {
      && Sides()
      && Fits(m, Window())
      && bids[..] == Slots(m, Bids, Window())
      && asks[..] == Slots(m, Asks, Window())
    }

    /** Representation invariant. */
    ghost predicate Valid()
      reads this, bids, asks
    {
      Represents(orders)
    }

    ghost function State(): LadderState
      reads this
    {
      LadderState(Window(), orders)
    }

    constructor (basePrice: u32, tickSize: u32, windowOf: WindowOf)
      ensures Valid() && fresh(bids) && fresh(asks)
      ensures this.windowOf == windowOf
      ensures State() == LadderState(Initial(basePrice, tickSize, windowOf), map[])
    {
      var g := Initial(basePrice, tickSize, windowOf);
      this.tickSize, this.windowOf := g.tick, windowOf;
      minPrice, maxPrice, numTicks := g.lo, g.hi, g.Ticks();
      bids := new Level[g.Ticks()](_ => EMPTY);
      asks := new Level[g.Ticks()](_ => EMPTY);
      bidLevelCount, askLevelCount := 0, 0;
      bestBidIdx, bestAskIdx := None, None;
      orders := map[];
      new;
      NoneOccupied(bids[..]);
      NoneOccupied(asks[..]);
      assert forall k, p: u32 :: RefsAt(map[], k, p) == {};
    }

    method Add(ref: Ref, side: Side, shares: u32, price: u32) returns (ok: bool)
      requires Valid()
      modifies this, bids, asks
      ensures Valid() && (bids == old(bids) || fresh(bids)) && (asks == old(asks) || fresh(asks))
      ensures LadderOutcome(State(), ok) == LadderAdd(old(State()), windowOf, ref, side, shares, price)
    {
      ok := MakeRoom(price);
      if ok {
        ok := AddInWindow(ref, side, shares, price);
      }
    }

    /** Widens the window, where it has to, to cover the price. */
    method MakeRoom(price: u32) returns (ok: bool)
      requires Valid()
      modifies this
      ensures Valid() && orders == old(orders)
      ensures (bids == old(bids) || fresh(bids)) && (asks == old(asks) || fresh(asks))
      ensures var room := Room(old(Window()), windowOf, price);
              ok == room.Some? && Window() == (if ok then room.value else old(Window()))
      ensures ok ==> Window().Covers(price)
    {
      WidenCovers(Window(), windowOf, price);
      ok := true;
      if !Window().Covers(price) {
        ok := GrowToInclude(price);
      }
    }

    /** `add` once the window covers the price. */
    method AddInWindow(ref: Ref, side: Side, shares: u32, price: u32) returns (ok: bool)
      requires Valid() && Window().Covers(price)
      modifies this`orders, this`bidLevelCount, this`askLevelCount, this`bestBidIdx, this`bestAskIdx, bids, asks
      ensures Valid()
      ensures ok <==> Window().Aligned(price) && ref !in old(orders)
      ensures orders == if ok then old(orders)[ref := Order(shares, price, side)] else old(orders)
    {
      if !Window().Aligned(price) {
        return false;
      }
      if ref in orders {
        return false;
      }
      Rest(ref, side, shares, price);
      ok := true;
    }

    /** The accepted tail of `add`: the price has a slot and the reference is new. */
    method Rest(ref: Ref, side: Side, shares: u32, price: u32)
      requires Valid() && Window().Covers(price) && Window().Aligned(price) && ref !in orders
      modifies this`orders, this`bidLevelCount, this`askLevelCount, this`bestBidIdx, this`bestAskIdx, bids, asks
      ensures Valid()
      ensures orders == old(orders)[ref := Order(shares, price, side)]
    {
      BothAfterAdd(orders, ref, Order(shares, price, side), Window());
      orders := orders[ref := Order(shares, price, side)];
      var i := Window().Idx(price);
      if side == BUY {
        RestBid(i, shares);
      } else {
        RestAsk(i, shares);
      }
    }

    method RestBid(i: nat, shares: u32)
      requires Sides() && i < numTicks
      modifies this`bidLevelCount, this`bestBidIdx, bids
      ensures Sides()
      ensures bids[..] == old(bids[..])[i := Bumped(old(bids[i]), shares)]
    {
      SideAfterAdd(bids[..], true, bidLevelCount, bestBidIdx, i, shares);
      if bids[i].orders == 0 {
        bidLevelCount := bidLevelCount + 1;
      }
      bids[i] := Bumped(bids[i], shares);
      if bestBidIdx.None? || i > bestBidIdx.value {
        bestBidIdx := Some(i);
      }
    }

    method RestAsk(i: nat, shares: u32)
      requires Sides() && i < numTicks
      modifies this`askLevelCount, this`bestAskIdx, asks
      ensures Sides()
      ensures asks[..] == old(asks[..])[i := Bumped(old(asks[i]), shares)]
    {
      SideAfterAdd(asks[..], false, askLevelCount, bestAskIdx, i, shares);
      if asks[i].orders == 0 {
        askLevelCount := askLevelCount + 1;
      }
      asks[i] := Bumped(asks[i], shares);
      if bestAskIdx.None? || i < bestAskIdx.value {
        bestAskIdx := Some(i);
      }
    }

    method Execute(ref: Ref, shares: u32) returns (ok: bool)
      requires Valid()
      modifies this`orders, this`bidLevelCount, this`askLevelCount, this`bestBidIdx, this`bestAskIdx, bids, asks
      ensures Valid()
      ensures Outcome(orders, ok) == Reduce(old(orders), ref, shares)
    {
      ok := ReduceOrder(ref, shares);
    }

    method Cancel(ref: Ref, shares: u32) returns (ok: bool)
      requires Valid()
      modifies this`orders, this`bidLevelCount, this`askLevelCount, this`bestBidIdx, this`bestAskIdx, bids, asks
      ensures Valid()
      ensures Outcome(orders, ok) == Reduce(old(orders), ref, shares)
    {
      ok := ReduceOrder(ref, shares);
    }

    method Remove(ref: Ref) returns (ok: bool)
      requires Valid()
      modifies this`orders, this`bidLevelCount, this`askLevelCount, this`bestBidIdx, this`bestAskIdx, bids, asks
      ensures Valid()
      ensures Outcome(orders, ok) == Take(old(orders), ref)
    {
      if ref !in orders {
        return false;
      }
      var o := orders[ref];
      orders := orders - {ref};
      LevelSub(o.side, o.price, o.shares, true, old(orders), ref);
      ok := true;
    }

    /** Remove then add, so a false result on a known original has still retired it. */
    method Replace(orig: Ref, next: Ref, shares: u32, price: u32) returns (ok: bool)
      requires Valid()
      modifies this, bids, asks
      ensures Valid() && (bids == old(bids) || fresh(bids)) && (asks == old(asks) || fresh(asks))
      ensures LadderOutcome(State(), ok) == LadderSwap(old(State()), windowOf, orig, next, shares, price)
    {
      if orig !in orders {
        return false;
      }
      var side := orders[orig].side;
      var _ := Remove(orig);
      ok := Add(next, side, shares, price);
    }

    method BestBid() returns (q: Option<Quote>)
      requires Valid()
      ensures q == BestQuote(orders, Bids)
    {
      SlotQuoteIsBest(orders, Bids, Window(), bestBidIdx);
      if bestBidIdx.None? {
        return None;
      }
      q := Some(Quote(Window().PriceAt(bestBidIdx.value), bids[bestBidIdx.value].shares));
    }

    method BestAsk() returns (q: Option<Quote>)
      requires Valid()
      ensures q == BestQuote(orders, Asks)
    {
      SlotQuoteIsBest(orders, Asks, Window(), bestAskIdx);
      if bestAskIdx.None? {
        return None;
      }
      q := Some(Quote(Window().PriceAt(bestAskIdx.value), asks[bestAskIdx.value].shares));
    }

    /** Every read-only accessor at once. */
    method Look() returns (v: View)
      requires Valid()
      ensures v == Observe(orders, Bids, Asks)
    {
      var bid := BestBid();
      var ask := BestAsk();
      OccupiedCountsPrices(orders, Bids, Window());
      OccupiedCountsPrices(orders, Asks, Window());
      v := View(bid, ask, |orders|, bidLevelCount, askLevelCount);
    }

    /** A refused widening changes nothing; a granted one covers the price and keeps the
        locator, and with it (by Valid) every level and both best levels. */
    method GrowToInclude(price: u32) returns (ok: bool)
      requires Valid()
      modifies this
      ensures Valid() && orders == old(orders)
      ensures ok <==> Widen(old(Window()), windowOf, price).Some?
      ensures Window() == if ok then Widen(old(Window()), windowOf, price).value else old(Window())
      ensures !ok ==> unchanged(this)
      ensures (bids == old(bids) || fresh(bids)) && (asks == old(asks) || fresh(asks))
    {
      WidenCovers(Window(), windowOf, price);
      var newMin, newMax := minPrice, maxPrice;
      if price < minPrice {
        newMin := Min(minPrice, SnapToTick(WindowLow(price, windowOf), tickSize));
      }
      if price > maxPrice {
        newMax := Max(maxPrice, WindowHigh(price, windowOf));
      }
      if newMin == minPrice && newMax == maxPrice {
        return true;
      }
      var newNumTicks := (newMax - newMin) / tickSize + 1;
      if newNumTicks > MAX_TICKS {
        return false;
      }
      Regrid(newMin, newMax, newNumTicks);
      ok := true;
    }

    /** The granted tail of `grow_to_include`. */
    method Regrid(newMin: u32, newMax: u32, newNumTicks: nat)
      requires Valid() && Extends(Grid(tickSize, newMin, newMax), Window())
      requires newNumTicks == Grid(tickSize, newMin, newMax).Ticks()
      modifies this
      ensures Valid() && orders == old(orders) && Window() == Grid(tickSize, newMin, newMax)
      ensures fresh(bids) && fresh(asks)
    {
      ghost var g := Grid(tickSize, newMin, newMax);
      BothAfterWidening(orders, Window(), g);
      SideAfterRehoming(bids[..], true, bidLevelCount, bestBidIdx, Offset(Window(), g), newNumTicks);
      SideAfterRehoming(asks[..], false, askLevelCount, bestAskIdx, Offset(Window(), g), newNumTicks);
      ResizeRange(newMin, newMax, newNumTicks);
    }

    /** Reallocates both arrays and copies every level to its new index. */
    method ResizeRange(newMin: u32, newMax: u32, newNumTicks: nat)
      requires tickSize > 0 && newMin <= minPrice
      requires bids.Length == asks.Length == numTicks
      requires (minPrice - newMin) / tickSize + numTicks <= newNumTicks
      modifies this`bids, this`asks, this`minPrice, this`maxPrice, this`numTicks, this`bestBidIdx, this`bestAskIdx
      ensures fresh(bids) && fresh(asks) && bids != asks
      ensures Window() == Grid(tickSize, newMin, newMax) && numTicks == newNumTicks
      ensures var offset := old(minPrice - newMin) / tickSize;
              && bids[..] == Rehomed(old(bids[..]), offset, newNumTicks)
              && asks[..] == Rehomed(old(asks[..]), offset, newNumTicks)
              && bestBidIdx == Moved(old(bestBidIdx), offset)
              && bestAskIdx == Moved(old(bestAskIdx), offset)
    {
      var offset := (minPrice - newMin) / tickSize;
      var newBids, newAsks := CopyTo(offset, newNumTicks);
      bids, asks := newBids, newAsks;
      minPrice, maxPrice, numTicks := newMin, newMax, newNumTicks;
      if bestBidIdx.Some? {
        bestBidIdx := Some(bestBidIdx.value + offset);
      }
      if bestAskIdx.Some? {
        bestAskIdx := Some(bestAskIdx.value + offset);
      }
    }

    method CopyTo(offset: nat, n: nat) returns (newBids: array<Level>, newAsks: array<Level>)
      requires bids.Length == asks.Length == numTicks && offset + numTicks <= n
      ensures fresh(newBids) && fresh(newAsks) && newBids != newAsks
      ensures newBids[..] == Rehomed(bids[..], offset, n)
      ensures newAsks[..] == Rehomed(asks[..], offset, n)
    {
      newBids := new Level[n](_ => EMPTY);
      newAsks := new Level[n](_ => EMPTY);
      var i := 0;
      while i < numTicks
        invariant 0 <= i <= numTicks
        invariant newBids[..] == Rehomed(bids[..i], offset, n)
        invariant newAsks[..] == Rehomed(asks[..i], offset, n)
      {
        RehomeOneMore(bids[..], offset, n, i);
        RehomeOneMore(asks[..], offset, n, i);
        newBids[i + offset] := bids[i];
        newAsks[i + offset] := asks[i];
        i := i + 1;
      }
      assert bids[..numTicks] == bids[..] && asks[..numTicks] == asks[..];
    }

    method ReduceOrder(ref: Ref, shares: u32) returns (ok: bool)
      requires Valid()
      modifies this`orders, this`bidLevelCount, this`askLevelCount, this`bestBidIdx, this`bestAskIdx, bids, asks
      ensures Valid()
      ensures Outcome(orders, ok) == Reduce(old(orders), ref, shares)
    {
      if ref !in orders {
        return false;
      }
      var o := orders[ref];
      var qty := if shares < o.shares then shares else o.shares;
      Withdraw(ref, qty);
      ok := true;
    }

    /** The accepted tail of `reduce`: the locator first, then the level. */
    method Withdraw(ref: Ref, qty: u32)
      requires Valid() && ref in orders && qty <= orders[ref].shares
      modifies this`orders, this`bidLevelCount, this`askLevelCount, this`bestBidIdx, this`bestAskIdx, bids, asks
      ensures Valid()
      ensures orders == Drain(old(orders), ref, qty)
    {
      ghost var was := orders;
      var o := orders[ref];
      TakeOff(ref, qty);
      LevelSub(o.side, o.price, qty, qty == o.shares, was, ref);
    }

    method TakeOff(ref: Ref, qty: u32)
      requires ref in orders && qty <= orders[ref].shares
      modifies this`orders
      ensures orders == Drain(old(orders), ref, qty)
    {
      var left := orders[ref].shares - qty;
      orders := if left == 0 then orders - {ref} else orders[ref := orders[ref].(shares := left)];
    }

    /** Takes `shares` off the level of an order of the locator `was`. */
    method LevelSub(side: Side, price: u32, shares: u32, orderGone: bool, ghost was: Orders, ghost ref: Ref)
      requires Represents(was)
      requires ref in was && was[ref].side == side && was[ref].price == price && shares <= was[ref].shares
      requires orderGone == (shares == was[ref].shares)
      modifies this`bidLevelCount, this`askLevelCount, this`bestBidIdx, this`bestAskIdx, bids, asks
      ensures Represents(Drain(was, ref, shares))
    {
      BothAfterDrain(was, ref, shares, Window());
      var i := Window().Idx(price);
      if side == BUY {
        LevelSubBid(i, shares, orderGone);
      } else {
        LevelSubAsk(i, shares, orderGone);
      }
    }

    method LevelSubBid(i: nat, shares: u32, orderGone: bool)
      requires Sides() && i < numTicks && bids[i].orders > 0
      modifies this`bidLevelCount, this`bestBidIdx, bids
      ensures Sides()
      ensures bids[..] == old(bids[..])[i := Shrunk(old(bids[i]), shares, orderGone)]
    {
      var l := Shrunk(bids[i], shares, orderGone);
      ghost var s := bids[..];
      bids[i] := l;
      if l.orders == 0 {
        SideAfterEmptied(s, true, bidLevelCount, bestBidIdx, i, l);
        bidLevelCount := bidLevelCount - 1;
        if bestBidIdx == Some(i) {
          RetreatBestBid();
        }
      } else {
        SideAfterShrink(s, true, bidLevelCount, bestBidIdx, i, l);
      }
    }

    method LevelSubAsk(i: nat, shares: u32, orderGone: bool)
      requires Sides() && i < numTicks && asks[i].orders > 0
      modifies this`askLevelCount, this`bestAskIdx, asks
      ensures Sides()
      ensures asks[..] == old(asks[..])[i := Shrunk(old(asks[i]), shares, orderGone)]
    {
      var l := Shrunk(asks[i], shares, orderGone);
      ghost var s := asks[..];
      asks[i] := l;
      if l.orders == 0 {
        SideAfterEmptied(s, false, askLevelCount, bestAskIdx, i, l);
        askLevelCount := askLevelCount - 1;
        if bestAskIdx == Some(i) {
          AdvanceBestAsk();
        }
      } else {
        SideAfterShrink(s, false, askLevelCount, bestAskIdx, i, l);
      }
    }

    /** The emptied index was the best bid: walk down to the next occupied one. */
    method RetreatBestBid()
      requires bids.Length == numTicks && bestBidIdx.Some? && bestBidIdx.value < numTicks
      requires forall j | bestBidIdx.value <= j < numTicks :: bids[j].orders == 0
      modifies this`bestBidIdx
      ensures IsBestSlot(bids[..], true, bestBidIdx)
    {
      var i := bestBidIdx.value;
      while i > 0
        invariant 0 <= i < numTicks && bids.Length == numTicks
        invariant forall j | i <= j < numTicks :: bids[j].orders == 0
        decreases i
      {
        i := i - 1;
        if bids[i].orders > 0 {
          bestBidIdx := Some(i);
          return;
        }
      }
      bestBidIdx := None;
    }

    /** Mirror image for the asks: walk up. */
    method AdvanceBestAsk()
      requires asks.Length == numTicks && bestAskIdx.Some? && bestAskIdx.value < numTicks
      requires forall j | 0 <= j <= bestAskIdx.value :: asks[j].orders == 0
      modifies this`bestAskIdx
      ensures IsBestSlot(asks[..], false, bestAskIdx)
    {
      var i := bestAskIdx.value + 1;
      while i < numTicks
        invariant 0 < i <= numTicks && asks.Length == numTicks
        invariant forall j | 0 <= j < i :: asks[j].orders == 0
      {
        if asks[i].orders > 0 {
          bestAskIdx := Some(i);
          return;
        }
        i := i + 1;
      }
      bestAskIdx := None;
    }
  }

  lemma RehomeOneMore(s: seq<Level>, offset: nat, n: nat, i: nat)
    requires offset + |s| <= n && i < |s|
    ensures Rehomed(s[..i], offset, n)[i + offset := s[i]] == Rehomed(s[..i + 1], offset, n)
  {
    var a, b := Rehomed(s[..i], offset, n), Rehomed(s[..i + 1], offset, n);
    assert |a| == |b|;
    forall j | 0 <= j < n
      ensures a[i + offset := s[i]][j] == b[j]
    {
    }
  }
}

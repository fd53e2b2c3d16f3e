/** What the flat arrays of a ladder must hold for a given locator, and how that moves
    with each operation. */
module LadderSpec {
  import opened Machine
  import opened BookSpec
  import opened PriceGrid

  /** Every resting order has a slot of its own price. */
  ghost predicate Fits(orders: Orders, g: Grid)
    requires g.Valid()
  {
    forall r | r in orders :: g.Covers(orders[r].price) && g.Aligned(orders[r].price)
  }

  /** One side's array: slot i is the level at the price of slot i. */
  ghost function Slots(orders: Orders, k: Pick, g: Grid): (s: seq<Level>)
    requires g.Valid()
    ensures |s| == g.Ticks()
    ensures forall i | 0 <= i < |s| :: s[i] == LevelAt(orders, k, g.PriceAt(i))
  {
    seq(g.Ticks(), i requires 0 <= i < g.Ticks() => LevelAt(orders, k, g.PriceAt(i)))
  }

  function Occupied(s: seq<Level>): set<nat> {
    set i: nat | i < |s| && s[i].orders > 0
  }

  ghost predicate IsBestSlot(s: seq<Level>, highest: bool, best: Option<nat>) {
    match best
    case None => forall i | 0 <= i < |s| :: s[i].orders == 0
    case Some(b) =>
      && b < |s| && s[b].orders > 0
      && forall i | 0 <= i < |s| && s[i].orders > 0 :: if highest then i <= b else b <= i
  }

  /** One side's array, its cached level count and its tracked best index agree. */
  ghost predicate SideOk(s: seq<Level>, highest: bool, count: nat, best: Option<nat>) {
    count == |Occupied(s)| && IsBestSlot(s, highest, best)
  }

  // ---------------------------------------------------------------- one slot changes

  /** An order arrives at slot i: the branch structure of `add`. */
  lemma SideAfterAdd(s: seq<Level>, highest: bool, count: nat, best: Option<nat>, i: nat, shares: nat)
    requires SideOk(s, highest, count, best) && i < |s|
    ensures SideOk(s[i := Bumped(s[i], shares)], highest,
                   if s[i].orders == 0 then count + 1 else count,
                   if best.None? || (if highest then i > best.value else i < best.value) then Some(i) else best)
  {
    OccupiedAfter(s, i, Bumped(s[i], shares));
  }

  lemma OccupiedAfter(s: seq<Level>, i: nat, l: Level)
    requires i < |s|
    ensures |Occupied(s[i := l])| == |Occupied(s)|
              + (if s[i].orders == 0 && l.orders > 0 then 1 else 0)
              - (if s[i].orders > 0 && l.orders == 0 then 1 else 0)
  {
    var t := s[i := l];
    var rest := Occupied(s) - {i};
    assert rest == Occupied(t) - {i};
    assert Occupied(s) == if s[i].orders > 0 then rest + {i} else rest;
    assert Occupied(t) == if t[i].orders > 0 then rest + {i} else rest;
  }

  /** A level shrinks but keeps an order: nothing else to maintain. */
  lemma SideAfterShrink(s: seq<Level>, highest: bool, count: nat, best: Option<nat>, i: nat, l: Level)
    requires SideOk(s, highest, count, best) && i < |s| && s[i].orders > 0 && l.orders > 0
    ensures SideOk(s[i := l], highest, count, best)
  {
    OccupiedAfter(s, i, l);
  }

  /** A level empties: the count drops, and only an emptied best needs a new search. */
  lemma SideAfterEmptied(s: seq<Level>, highest: bool, count: nat, best: Option<nat>, i: nat, l: Level)
    requires SideOk(s, highest, count, best) && i < |s| && s[i].orders > 0 && l.orders == 0
    ensures count > 0 && |Occupied(s[i := l])| == count - 1
    ensures best.Some?
    ensures best != Some(i) ==> IsBestSlot(s[i := l], highest, best)
    ensures best == Some(i) ==>
              var t := s[i := l];
              forall j | 0 <= j < |t| && (if highest then i <= j else j <= i) :: t[j].orders == 0
  {
    assert i in Occupied(s);
    OccupiedAfter(s, i, l);
  }

  // ---------------------------------------------------------------- the locator changes

  lemma SlotsAfterAdd(orders: Orders, r: Ref, o: Order, k: Pick, g: Grid)
    requires g.Valid() && r !in orders && g.Covers(o.price) && g.Aligned(o.price)
    ensures g.Idx(o.price) < g.Ticks()
    ensures Slots(orders[r := o], k, g)
         == var s := Slots(orders, k, g);
            if On(o, k) then s[g.Idx(o.price) := Bumped(s[g.Idx(o.price)], o.shares)] else s
  {
    SlotOfPrice(g, o.price);
    var s' := Slots(orders[r := o], k, g);
    forall i | 0 <= i < g.Ticks()
      ensures s'[i] == if On(o, k) && i == g.Idx(o.price)
                       then Bumped(LevelAt(orders, k, g.PriceAt(i)), o.shares)
                       else LevelAt(orders, k, g.PriceAt(i))
    {
      PriceOfSlot(g, i);
      AddLevel(orders, r, o, k, g.PriceAt(i));
    }
  }

  lemma SlotsAfterDrain(orders: Orders, r: Ref, qty: u32, k: Pick, g: Grid)
    requires g.Valid() && Fits(orders, g) && r in orders && qty <= orders[r].shares
    ensures Fits(Drain(orders, r, qty), g)
    ensures var i := g.Idx(orders[r].price);
            var s := Slots(orders, k, g);
            && i < g.Ticks()
            && (On(orders[r], k) ==> s[i].orders > 0)
            && Slots(Drain(orders, r, qty), k, g)
               == if On(orders[r], k) then s[i := Shrunk(s[i], qty, qty == orders[r].shares)] else s
  {
    var o := orders[r];
    SlotOfPrice(g, o.price);
    var s' := Slots(Drain(orders, r, qty), k, g);
    DrainLevel(orders, r, qty, k, o.price);
    forall i | 0 <= i < g.Ticks()
      ensures s'[i] == if On(o, k) && i == g.Idx(o.price)
                       then Shrunk(LevelAt(orders, k, g.PriceAt(i)), qty, qty == o.shares)
                       else LevelAt(orders, k, g.PriceAt(i))
    {
      PriceOfSlot(g, i);
      DrainLevel(orders, r, qty, k, g.PriceAt(i));
    }
  }

  /** Both arrays at once, as `add` touches them. */
  lemma BothAfterAdd(orders: Orders, r: Ref, o: Order, g: Grid)
    requires g.Valid() && Fits(orders, g) && r !in orders && g.Covers(o.price) && g.Aligned(o.price)
    ensures Fits(orders[r := o], g) && g.Idx(o.price) < g.Ticks()
    ensures var i := g.Idx(o.price);
            var b, a := Slots(orders, Bids, g), Slots(orders, Asks, g);
            var after := orders[r := o];
            if o.side == BUY
            then Slots(after, Bids, g) == b[i := Bumped(b[i], o.shares)] && Slots(after, Asks, g) == a
            else Slots(after, Bids, g) == b && Slots(after, Asks, g) == a[i := Bumped(a[i], o.shares)]
  {
    SlotsAfterAdd(orders, r, o, Bids, g);
    SlotsAfterAdd(orders, r, o, Asks, g);
  }

  /** Both arrays at once, as `level_sub` touches them. */
  lemma BothAfterDrain(orders: Orders, r: Ref, qty: u32, g: Grid)
    requires g.Valid() && Fits(orders, g) && r in orders && qty <= orders[r].shares
    ensures Fits(Drain(orders, r, qty), g) && g.Idx(orders[r].price) < g.Ticks()
    ensures var i, gone := g.Idx(orders[r].price), qty == orders[r].shares;
            var b, a := Slots(orders, Bids, g), Slots(orders, Asks, g);
            var after := Drain(orders, r, qty);
            if orders[r].side == BUY
            then && b[i].orders > 0
                 && Slots(after, Bids, g) == b[i := Shrunk(b[i], qty, gone)] && Slots(after, Asks, g) == a
            else && a[i].orders > 0
                 && Slots(after, Bids, g) == b && Slots(after, Asks, g) == a[i := Shrunk(a[i], qty, gone)]
  {
    SlotsAfterDrain(orders, r, qty, Bids, g);
    SlotsAfterDrain(orders, r, qty, Asks, g);
  }

  // ---------------------------------------------------------------- the window changes

  /** Freshly allocated slots. */
  function Blank(n: nat): seq<Level> {
    seq(n, _ => EMPTY)
  }

  /** An array re-homed at an offset into a larger, otherwise empty one. */
  function Rehomed(s: seq<Level>, offset: nat, n: nat): seq<Level>
    requires offset + |s| <= n
  {
    Blank(offset) + s + Blank(n - offset - |s|)
  }

  function Moved(best: Option<nat>, offset: nat): Option<nat> {
    if best.Some? then Some(best.value + offset) else None
  }

  lemma SideAfterRehoming(s: seq<Level>, highest: bool, count: nat, best: Option<nat>, offset: nat, n: nat)
    requires offset + |s| <= n && SideOk(s, highest, count, best)
    ensures SideOk(Rehomed(s, offset, n), highest, count, Moved(best, offset))
  {
    var low, high := Blank(offset), Blank(n - offset - |s|);
    NoneOccupied(low);
    NoneOccupied(high);
    OccupiedConcat(low, s);
    OccupiedConcat(low + s, high);
    var s' := Rehomed(s, offset, n);
    forall j | 0 <= j < n && s'[j].orders > 0
      ensures offset <= j < offset + |s| && s'[j] == s[j - offset]
    {
    }
    if best.Some? {
      assert s'[best.value + offset] == s[best.value];
    } else {
      assert forall j | 0 <= j < n :: s'[j].orders == 0;
    }
  }

  lemma {:induction false} OccupiedConcat(a: seq<Level>, b: seq<Level>)
    ensures |Occupied(a + b)| == |Occupied(a)| + |Occupied(b)|
    decreases |b|
  {
    if b == [] {
      assert a + b == a;
      assert Occupied(b) == {};
    } else {
      var n := |b| - 1;
      OccupiedConcat(a, b[..n]);
      OneMoreSlot(b[..n], b[n]);
      OneMoreSlot(a + b[..n], b[n]);
      assert b[..n] + [b[n]] == b;
      assert a + b[..n] + [b[n]] == a + b;
    }
  }

  lemma OneMoreSlot(s: seq<Level>, l: Level)
    ensures |Occupied(s + [l])| == |Occupied(s)| + (if l.orders > 0 then 1 else 0)
  {
    assert Occupied(s + [l]) == Occupied(s) + (if l.orders > 0 then {|s|} else {});
  }

  lemma NoneOccupied(s: seq<Level>)
    requires forall i | 0 <= i < |s| :: s[i] == EMPTY
    ensures Occupied(s) == {}
  {
  }

  /** Widening keeps the level at every price: the re-homed array is exactly what the
      wider grid prescribes. */
  lemma SlotsAfterWidening(orders: Orders, k: Pick, g: Grid, g': Grid)
    requires Extends(g', g) && Fits(orders, g)
    ensures Fits(orders, g')
    ensures Offset(g, g') + g.Ticks() <= g'.Ticks()
    ensures Slots(orders, k, g') == Rehomed(Slots(orders, k, g), Offset(g, g'), g'.Ticks())
  {
    var d := Offset(g, g');
    OffsetIsExact(g, g');
    forall r | r in orders
      ensures g'.Covers(orders[r].price) && g'.Aligned(orders[r].price)
    {
      AlignedIsAbsolute(g, orders[r].price);
      AlignedIsAbsolute(g', orders[r].price);
    }
    forall j | 0 <= j < g'.Ticks()
      ensures Slots(orders, k, g')[j] == Rehomed(Slots(orders, k, g), d, g'.Ticks())[j]
    {
      if d <= j < d + g.Ticks() {
        RehomedPrice(g, g', j - d);
      } else {
        NewSlotIsEmpty(orders, k, g, g', j);
      }
    }
  }

  lemma BothAfterWidening(orders: Orders, g: Grid, g': Grid)
    requires Extends(g', g) && Fits(orders, g)
    ensures Fits(orders, g')
    ensures Offset(g, g') + g.Ticks() <= g'.Ticks()
    ensures Slots(orders, Bids, g') == Rehomed(Slots(orders, Bids, g), Offset(g, g'), g'.Ticks())
    ensures Slots(orders, Asks, g') == Rehomed(Slots(orders, Asks, g), Offset(g, g'), g'.Ticks())
  {
    SlotsAfterWidening(orders, Bids, g, g');
    SlotsAfterWidening(orders, Asks, g, g');
  }

  lemma NewSlotIsEmpty(orders: Orders, k: Pick, g: Grid, g': Grid, j: nat)
    requires Extends(g', g) && Fits(orders, g)
    requires j < g'.Ticks() && !(Offset(g, g') <= j < Offset(g, g') + g.Ticks())
    ensures LevelAt(orders, k, g'.PriceAt(j)) == EMPTY
  {
    var p := g'.PriceAt(j);
    if RefsAt(orders, k, p) != {} {
      var r :| r in RefsAt(orders, k, p);
      assert g.Covers(orders[r].price);
      HomeOfOldPrice(g, g', j);
    }
  }

  // ---------------------------------------------------------------- arrays against scans

  lemma {:induction false} OccupiedPrices(g: Grid, idxs: set<nat>, prices: set<u32>)
    requires g.Valid()
    requires forall i | i in idxs :: i < g.Ticks() && g.PriceAt(i) in prices
    requires forall p | p in prices :: g.Covers(p) && g.Aligned(p) && g.Idx(p) in idxs
    ensures |idxs| == |prices|
    decreases |idxs|
  {
    if idxs == {} {
      assert prices == {};
    } else {
      var i :| i in idxs;
      var p := g.PriceAt(i);
      forall j | j in idxs - {i}
        ensures g.PriceAt(j) in prices - {p}
      {
        PriceOfSlot(g, i);
        PriceOfSlot(g, j);
      }
      forall q | q in prices - {p}
        ensures g.Idx(q) in idxs - {i}
      {
        SlotOfPrice(g, q);
      }
      assert |idxs - {i}| == |idxs| - 1 && |prices - {p}| == |prices| - 1;
      OccupiedPrices(g, idxs - {i}, prices - {p});
    }
  }

  /** The number of occupied slots is the number of distinct prices. */
  lemma OccupiedCountsPrices(orders: Orders, k: Pick, g: Grid)
    requires g.Valid() && Fits(orders, g)
    ensures |Occupied(Slots(orders, k, g))| == |Prices(orders, k)|
  {
    var s := Slots(orders, k, g);
    forall i: nat | i in Occupied(s)
      ensures g.PriceAt(i) in Prices(orders, k)
    {
      OccupiedIffPriced(orders, k, g.PriceAt(i));
    }
    forall p | p in Prices(orders, k)
      ensures g.Covers(p) && g.Aligned(p) && g.Idx(p) in Occupied(s)
    {
      SlotOfPrice(g, p);
      OccupiedIffPriced(orders, k, p);
    }
    OccupiedPrices(g, Occupied(s), Prices(orders, k));
  }

  /** The quote read off an array at its tracked best index. */
  function SlotQuote(s: seq<Level>, g: Grid, best: Option<nat>): Option<Quote>
    requires best.Some? ==> best.value < |s|
  {
    if best.None? then None else Some(Quote(g.PriceAt(best.value), s[best.value].shares))
  }

  lemma SlotQuoteIsBest(orders: Orders, k: Pick, g: Grid, best: Option<nat>)
    requires g.Valid() && Fits(orders, g)
    requires IsBestSlot(Slots(orders, k, g), HighestFirst(k), best)
    ensures SlotQuote(Slots(orders, k, g), g, best) == BestQuote(orders, k)
  {
    var s := Slots(orders, k, g);
    var ps := Prices(orders, k);
    forall p | p in ps
      ensures g.Idx(p) < |s| && s[g.Idx(p)].orders > 0 && g.PriceAt(g.Idx(p)) == p
    {
      SlotOfPrice(g, p);
      OccupiedIffPriced(orders, k, p);
    }
    match best {
      case None =>
        assert ps == {};
      case Some(b) =>
        var top := g.PriceAt(b);
        OccupiedIffPriced(orders, k, top);
        forall p | p in ps
          ensures if HighestFirst(k) then p <= top else top <= p
        {
          BestSlotBestPrice(g, HighestFirst(k), b, g.Idx(p));
        }
        BestIsUnique(ps, HighestFirst(k), top);
    }
  }

  lemma BestSlotBestPrice(g: Grid, highest: bool, b: nat, i: nat)
    requires g.Valid() && b < g.Ticks() && i < g.Ticks()
    requires if highest then i <= b else b <= i
    ensures if highest then g.PriceAt(i) <= g.PriceAt(b) else g.PriceAt(b) <= g.PriceAt(i)
  {
    if i < b {
      SlotsAscend(g, i, b);
    } else if b < i {
      SlotsAscend(g, b, i);
    }
  }

  // ---------------------------------------------------------------- the ladder as a state machine

  datatype LadderState = LadderState(grid: Grid, orders: Orders) {
    ghost predicate Valid() {
      grid.Valid() && Fits(orders, grid)
    }
  }

  datatype LadderOutcome = LadderOutcome(state: LadderState, ok: bool)

  /** The window after `add` has made what room it can for a price. */
  function Room(g: Grid, w: WindowOf, price: u32): Option<Grid>
    requires g.Valid()
  {
    if g.Covers(price) then Some(g) else Widen(g, w, price)
  }

  /** A caller can tell beforehand whether a price will be refused: it is off the tick
      grid, or out of the window with no widening under the ceiling. */
  predicate Refused(g: Grid, w: WindowOf, price: u32)
    requires g.Valid()
  {
    price % g.tick != 0 || Room(g, w, price).None?
  }

  function LadderAdd(s: LadderState, w: WindowOf, ref: Ref, side: Side, shares: u32, price: u32): LadderOutcome
    requires s.grid.Valid()
  {
    var room := Room(s.grid, w, price);
    if room.None? then LadderOutcome(s, false)
    else if !room.value.Aligned(price) || ref in s.orders
    then LadderOutcome(s.(grid := room.value), false)
    else LadderOutcome(LadderState(room.value, s.orders[ref := Order(shares, price, side)]), true)
  }

  function LadderSwap(s: LadderState, w: WindowOf, orig: Ref, next: Ref, shares: u32, price: u32): LadderOutcome
    requires s.grid.Valid()
  {
    if orig !in s.orders then LadderOutcome(s, false)
    else LadderAdd(s.(orders := s.orders - {orig}), w, next, s.orders[orig].side, shares, price)
  }

  /** Operations other than add and replace act on the locator alone. */
  function LadderApply(s: LadderState, w: WindowOf, op: Op): LadderOutcome
    requires s.grid.Valid()
  {
    match op
    case Add(ref, side, shares, price) => LadderAdd(s, w, ref, side, shares, price)
    case Replace(orig, next, shares, price) => LadderSwap(s, w, orig, next, shares, price)
    case _ => var a := Apply(s.orders, op); LadderOutcome(s.(orders := a.orders), a.ok)
  }

  lemma RoomExtends(g: Grid, w: WindowOf, price: u32)
    requires g.Valid()
    ensures Room(g, w, price).Some? ==>
              Extends(Room(g, w, price).value, g) && Room(g, w, price).value.Covers(price)
  {
    WidenCovers(g, w, price);
  }

  lemma LadderAddIsValid(s: LadderState, w: WindowOf, ref: Ref, side: Side, shares: u32, price: u32)
    requires s.Valid()
    ensures LadderAdd(s, w, ref, side, shares, price).state.Valid()
  {
    RoomExtends(s.grid, w, price);
    var room := Room(s.grid, w, price);
    if room.Some? {
      SlotsAfterWidening(s.orders, Bids, s.grid, room.value);
    }
  }

  lemma LadderApplyIsValid(s: LadderState, w: WindowOf, op: Op)
    requires s.Valid()
    ensures LadderApply(s, w, op).state.Valid()
  {
    match op
    case Add(ref, side, shares, price) => LadderAddIsValid(s, w, ref, side, shares, price);
    case Replace(orig, next, shares, price) =>
      if orig in s.orders {
        LadderAddIsValid(s.(orders := s.orders - {orig}), w, next, s.orders[orig].side, shares, price);
      }
    case _ =>
  }
}

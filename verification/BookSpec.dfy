/** The simple form of an order book: nothing but the map from order reference to
    resting order. Everything an observer can ask for is defined here by scanning
    that map; the two production books must agree with these scans. */
module BookSpec {
  import opened Machine
  import opened Extremes

  /** `enum class Side : char` is cast from a wire byte, so any code can occur. */
  datatype Side = Side(code: u8)

  const BUY := Side(0x42)
  const SELL := Side(0x53)

  datatype Order = Order(shares: u32, price: u32, side: Side)
  type Ref = u64
  type Orders = map<Ref, Order>

  /** One price level: total shares and number of orders resting there. */
  datatype Level = Level(shares: nat, orders: nat)

  const EMPTY := Level(0, 0)

  datatype Quote = Quote(price: u32, shares: nat)

  /** Which orders a scan looks at. The production books test `side == Buy` and put
      every other side on the ask ladder; the reference scan tests one side exactly. */
  datatype Pick = Bids | Asks | Only(side: Side)

  predicate On(o: Order, k: Pick) {
    match k
    case Bids => o.side == BUY
    case Asks => o.side != BUY
    case Only(s) => o.side == s
  }

  predicate HighestFirst(k: Pick) {
    k.Bids? || k == Only(BUY)
  }

  // ---------------------------------------------------------------- scans

  function RefsAt(orders: Orders, k: Pick, p: u32): set<Ref> {
    set r | r in orders && On(orders[r], k) && orders[r].price == p
  }

  function Prices(orders: Orders, k: Pick): set<u32> {
    set r | r in orders && On(orders[r], k) :: orders[r].price
  }

  ghost function SumShares(orders: Orders, refs: set<Ref>): nat
    requires refs <= orders.Keys
  {
    if refs == {} then 0
    else
      var r :| r in refs;
      orders[r].shares + SumShares(orders, refs - {r})
  }

  ghost function LevelAt(orders: Orders, k: Pick, p: u32): Level {
    Level(SumShares(orders, RefsAt(orders, k, p)), |RefsAt(orders, k, p)|)
  }

  /** `map.begin()` of a ladder ordered best price first. */
  function BestOf(ps: set<u32>, highest: bool): (best: u32)
    requires ps != {}
    ensures IsBest(ps, highest, best)
  {
    BestExists(ps, highest);
    var p :| p in ps && forall q | q in ps :: if highest then q <= p else p <= q;
    p
  }

  lemma BestIsUnique(ps: set<u32>, highest: bool, p: u32)
    requires IsBest(ps, highest, p)
    ensures p == BestOf(ps, highest)
  {
    assert IsBest(ps, highest, BestOf(ps, highest));
  }

  ghost function BestQuote(orders: Orders, k: Pick): Option<Quote> {
    if Prices(orders, k) == {} then None
    else
      var p := BestOf(Prices(orders, k), HighestFirst(k));
      Some(Quote(p, LevelAt(orders, k, p).shares))
  }

  /** Everything a caller of a book can see. */
  datatype View = View(bid: Option<Quote>, ask: Option<Quote>, open: nat, bidLevels: nat, askLevels: nat)

  ghost function Observe(orders: Orders, bid: Pick, ask: Pick): View {
    View(BestQuote(orders, bid), BestQuote(orders, ask), |orders|,
         |Prices(orders, bid)|, |Prices(orders, ask)|)
  }

  // ---------------------------------------------------------------- transitions

  datatype Op =
    | Add(ref: Ref, side: Side, shares: u32, price: u32)
    | Execute(ref: Ref, shares: u32)
    | Cancel(ref: Ref, shares: u32)
    | Remove(ref: Ref)
    | Replace(orig: Ref, next: Ref, shares: u32, price: u32)

  /** Book contents after an operation, and the boolean it returned. */
  datatype Outcome = Outcome(orders: Orders, ok: bool)

  /** Takes `qty` shares off a resting order; an order left with none is gone. */
  function Drain(orders: Orders, r: Ref, qty: u32): Orders
    requires r in orders && qty <= orders[r].shares
  {
    var o := orders[r];
    if qty == o.shares then orders - {r} else orders[r := o.(shares := o.shares - qty)]
  }

  function AddTo(orders: Orders, r: Ref, side: Side, shares: u32, price: u32): Outcome {
    if r in orders then Outcome(orders, false)
    else Outcome(orders[r := Order(shares, price, side)], true)
  }

  function Reduce(orders: Orders, r: Ref, shares: u32): Outcome {
    if r !in orders then Outcome(orders, false)
    else Outcome(Drain(orders, r, Min(shares, orders[r].shares)), true)
  }

  function Take(orders: Orders, r: Ref): Outcome {
    if r !in orders then Outcome(orders, false) else Outcome(orders - {r}, true)
  }

  /** Remove then add: a replace that fails to add has still retired the original. */
  function Swap(orders: Orders, orig: Ref, next: Ref, shares: u32, price: u32): Outcome {
    if orig !in orders then Outcome(orders, false)
    else AddTo(orders - {orig}, next, orders[orig].side, shares, price)
  }

  function Apply(orders: Orders, op: Op): Outcome {
    match op
    case Add(r, side, shares, price) => AddTo(orders, r, side, shares, price)
    case Execute(r, shares) => Reduce(orders, r, shares)
    case Cancel(r, shares) => Reduce(orders, r, shares)
    case Remove(r) => Take(orders, r)
    case Replace(orig, next, shares, price) => Swap(orders, orig, next, shares, price)
  }

  // ---------------------------------------------------------------- how scans move

  function Bumped(l: Level, shares: nat): Level {
    Level(l.shares + shares, l.orders + 1)
  }

  /** The arithmetic of `level_sub`, clamps included. */
  function Shrunk(l: Level, qty: nat, gone: bool): Level {
    Level(l.shares - Min(qty, l.shares), if gone && l.orders > 0 then l.orders - 1 else l.orders)
  }

  lemma {:induction false} SumWithout(orders: Orders, refs: set<Ref>, r: Ref)
    requires refs <= orders.Keys && r in refs
    ensures SumShares(orders, refs) == orders[r].shares + SumShares(orders, refs - {r})
    decreases |refs|
  {
    var x :| x in refs && SumShares(orders, refs) == orders[x].shares + SumShares(orders, refs - {x});
    if x != r {
      SumWithout(orders, refs - {x}, r);
      SumWithout(orders, refs - {r}, x);
      assert refs - {x} - {r} == refs - {r} - {x};
    }
  }

  lemma {:induction false} SumDependsOnRefs(a: Orders, b: Orders, refs: set<Ref>)
    requires refs <= a.Keys && refs <= b.Keys
    requires forall r | r in refs :: a[r].shares == b[r].shares
    ensures SumShares(a, refs) == SumShares(b, refs)
    decreases |refs|
  {
    if refs != {} {
      var r :| r in refs;
      SumWithout(a, refs, r);
      SumWithout(b, refs, r);
      SumDependsOnRefs(a, b, refs - {r});
    }
  }

  lemma {:induction false} SumBound(orders: Orders, refs: set<Ref>)
    requires refs <= orders.Keys
    ensures SumShares(orders, refs) <= |refs| * (TWO_32 - 1)
    decreases |refs|
  {
    if refs != {} {
      var r :| r in refs;
      SumWithout(orders, refs, r);
      SumBound(orders, refs - {r});
    }
  }

  /** With fewer than 2^32 orders at a level, neither its 64-bit share total nor its
      32-bit order count can wrap. */
  lemma LevelFitsItsFields(orders: Orders, k: Pick, p: u32)
    requires |RefsAt(orders, k, p)| < TWO_32
    ensures LevelAt(orders, k, p).shares < TWO_64 && LevelAt(orders, k, p).orders < TWO_32
  {
    SumBound(orders, RefsAt(orders, k, p));
  }

  lemma OccupiedIffPriced(orders: Orders, k: Pick, p: u32)
    ensures LevelAt(orders, k, p).orders > 0 <==> p in Prices(orders, k)
  {
    if p in Prices(orders, k) {
      var r :| r in orders && On(orders[r], k) && orders[r].price == p;
      assert r in RefsAt(orders, k, p);
    } else {
      assert RefsAt(orders, k, p) == {};
    }
  }

  lemma AddRefs(orders: Orders, r: Ref, o: Order, k: Pick, p: u32)
    requires r !in orders
    ensures RefsAt(orders[r := o], k, p)
         == RefsAt(orders, k, p) + (if On(o, k) && o.price == p then {r} else {})
  {
  }

  lemma SumOneMore(orders: Orders, refs: set<Ref>, r: Ref, o: Order)
    requires refs <= orders.Keys && r !in orders
    ensures SumShares(orders[r := o], refs + {r}) == SumShares(orders, refs) + o.shares
  {
    var after := orders[r := o];
    SumWithout(after, refs + {r}, r);
    assert refs + {r} - {r} == refs;
    SumDependsOnRefs(orders, after, refs);
  }

  lemma AddLevelHere(orders: Orders, r: Ref, o: Order, k: Pick, p: u32)
    requires r !in orders && On(o, k) && o.price == p
    ensures LevelAt(orders[r := o], k, p) == Bumped(LevelAt(orders, k, p), o.shares)
  {
    AddRefs(orders, r, o, k, p);
    SumOneMore(orders, RefsAt(orders, k, p), r, o);
  }

  lemma AddLevelElsewhere(orders: Orders, r: Ref, o: Order, k: Pick, p: u32)
    requires r !in orders && !(On(o, k) && o.price == p)
    ensures LevelAt(orders[r := o], k, p) == LevelAt(orders, k, p)
  {
    AddRefs(orders, r, o, k, p);
    SumDependsOnRefs(orders, orders[r := o], RefsAt(orders, k, p));
  }

  lemma AddLevel(orders: Orders, r: Ref, o: Order, k: Pick, p: u32)
    requires r !in orders
    ensures LevelAt(orders[r := o], k, p)
         == if On(o, k) && o.price == p then Bumped(LevelAt(orders, k, p), o.shares)
            else LevelAt(orders, k, p)
  {
    if On(o, k) && o.price == p {
      AddLevelHere(orders, r, o, k, p);
    } else {
      AddLevelElsewhere(orders, r, o, k, p);
    }
  }

  lemma DrainRefs(orders: Orders, r: Ref, qty: u32, k: Pick, p: u32)
    requires r in orders && qty <= orders[r].shares
    ensures RefsAt(Drain(orders, r, qty), k, p)
         == if qty == orders[r].shares then RefsAt(orders, k, p) - {r} else RefsAt(orders, k, p)
  {
  }

  lemma DrainLevelHere(orders: Orders, r: Ref, qty: u32, k: Pick, p: u32)
    requires r in orders && qty <= orders[r].shares && On(orders[r], k) && orders[r].price == p
    ensures LevelAt(Drain(orders, r, qty), k, p) == Shrunk(LevelAt(orders, k, p), qty, qty == orders[r].shares)
    ensures qty <= LevelAt(orders, k, p).shares && LevelAt(orders, k, p).orders > 0
  {
    var before := RefsAt(orders, k, p);
    var after := Drain(orders, r, qty);
    DrainRefs(orders, r, qty, k, p);
    SumWithout(orders, before, r);
    SumDependsOnRefs(orders, after, before - {r});
    if qty < orders[r].shares {
      SumWithout(after, before, r);
    }
  }

  lemma DrainLevelElsewhere(orders: Orders, r: Ref, qty: u32, k: Pick, p: u32)
    requires r in orders && qty <= orders[r].shares && !(On(orders[r], k) && orders[r].price == p)
    ensures LevelAt(Drain(orders, r, qty), k, p) == LevelAt(orders, k, p)
  {
    var before := RefsAt(orders, k, p);
    DrainRefs(orders, r, qty, k, p);
    assert before - {r} == before;
    SumDependsOnRefs(orders, Drain(orders, r, qty), before);
  }

  lemma DrainLevel(orders: Orders, r: Ref, qty: u32, k: Pick, p: u32)
    requires r in orders && qty <= orders[r].shares
    ensures LevelAt(Drain(orders, r, qty), k, p)
         == if On(orders[r], k) && orders[r].price == p
            then Shrunk(LevelAt(orders, k, p), qty, qty == orders[r].shares)
            else LevelAt(orders, k, p)
    ensures On(orders[r], k) && orders[r].price == p ==>
              qty <= LevelAt(orders, k, p).shares && LevelAt(orders, k, p).orders > 0
  {
    if On(orders[r], k) && orders[r].price == p {
      DrainLevelHere(orders, r, qty, k, p);
    } else {
      DrainLevelElsewhere(orders, r, qty, k, p);
    }
  }
}

/** What every operation does to a book, without the transition functions: which orders
    rest afterwards, and what each level and each quote then is. */
module BookEffects {
  import opened Machine
  import opened Extremes
  import opened BookSpec

  // ---------------------------------------------------------------- resting orders

  function Lesser(a: nat, b: nat): (m: nat)
    ensures m <= a && m <= b && (m == a || m == b)
  {
    if a < b then a else b
  }

  /** Taking shares off a reference: below the resting shares the rest is left, at or above
      them the order is gone, and an unknown reference is refused. */
  ghost predicate LeavesTheRest(before: Orders, r: Ref, shares: u32, after: Orders, ok: bool) {
    if r !in before then !ok && after == before
    else
      var o := before[r];
      ok && after == if shares < o.shares then before[r := Order(o.shares - shares, o.price, o.side)]
                     else before - {r}
  }

  /** Executions and cancellations alike. */
  lemma ReductionLeavesTheRest(orders: Orders, r: Ref, shares: u32)
    ensures var e := Apply(orders, Execute(r, shares)); LeavesTheRest(orders, r, shares, e.orders, e.ok)
    ensures Apply(orders, Cancel(r, shares)) == Apply(orders, Execute(r, shares))
  {
  }

  lemma AdditionRests(orders: Orders, r: Ref, side: Side, shares: u32, price: u32)
    ensures var a := Apply(orders, Add(r, side, shares, price));
            if r in orders then !a.ok && a.orders == orders
            else a.ok && a.orders == orders[r := Order(shares, price, side)]
  {
  }

  lemma RemovalRetires(orders: Orders, r: Ref)
    ensures var a := Apply(orders, Remove(r));
            a.ok == (r in orders) && a.orders == orders - {r}
  {
    if r !in orders {
      assert orders - {r} == orders;
    }
  }

  /** A replace that succeeds leaves the new reference in the original's place, on the
      original's side, with the new shares and price. */
  lemma ReplacementRests(orders: Orders, orig: Ref, next: Ref, shares: u32, price: u32)
    ensures var a := Apply(orders, Replace(orig, next, shares, price));
            && a.ok == (orig in orders && (next == orig || next !in orders))
            && (a.ok ==> a.orders == (orders - {orig})[next := Order(shares, price, orders[orig].side)])
            && (!a.ok ==> a.orders == orders - {orig})
  {
    if orig !in orders {
      assert orders - {orig} == orders;
    }
  }

  // ---------------------------------------------------------------- levels

  /** The scan of an empty book. */
  lemma NothingRests(k: Pick, p: u32)
    ensures LevelAt(map[], k, p) == Level(0, 0)
  {
    assert RefsAt(map[], k, p) == {};
  }

  /** Whether an order counts at this side and price: 'B' on the bids, anything else on
      the asks. */
  predicate Counts(o: Order, bids: bool, p: u32) {
    (o.side.code == 0x42) == bids && o.price == p
  }

  function SideOf(bids: bool): Pick {
    if bids then Bids else Asks
  }

  lemma AdditionInLevels(orders: Orders, r: Ref, side: Side, shares: u32, price: u32, bids: bool, p: u32)
    requires r !in orders
    ensures var before := LevelAt(orders, SideOf(bids), p);
            var after := LevelAt(Apply(orders, Add(r, side, shares, price)).orders, SideOf(bids), p);
            after == if Counts(Order(shares, price, side), bids, p)
                     then Level(before.shares + shares, before.orders + 1) else before
  {
    AddLevel(orders, r, Order(shares, price, side), SideOf(bids), p);
  }

  /** The level of the reduced order loses exactly the smaller of what was asked and what
      rested, and the order itself when nothing is left; no other level moves. */
  lemma ReductionInLevels(orders: Orders, r: Ref, shares: u32, bids: bool, p: u32)
    requires r in orders
    ensures var o, before := orders[r], LevelAt(orders, SideOf(bids), p);
            var after := LevelAt(Apply(orders, Execute(r, shares)).orders, SideOf(bids), p);
            if Counts(o, bids, p)
            then && after.shares == before.shares - Lesser(shares, o.shares)
                 && after.orders == before.orders - (if shares >= o.shares then 1 else 0)
            else after == before
  {
    DrainLevel(orders, r, Lesser(shares, orders[r].shares), SideOf(bids), p);
  }

  lemma RemovalInLevels(orders: Orders, r: Ref, bids: bool, p: u32)
    requires r in orders
    ensures var o, before := orders[r], LevelAt(orders, SideOf(bids), p);
            var after := LevelAt(Apply(orders, Remove(r)).orders, SideOf(bids), p);
            if Counts(o, bids, p) then after.shares == before.shares - o.shares && after.orders == before.orders - 1
            else after == before
  {
    DrainLevel(orders, r, orders[r].shares, SideOf(bids), p);
  }

  // ---------------------------------------------------------------- quotes

  ghost predicate Rests(orders: Orders, bids: bool, p: u32) {
    exists r | r in orders :: Counts(orders[r], bids, p)
  }

  lemma RestsIffPriced(orders: Orders, bids: bool, p: u32)
    ensures Rests(orders, bids, p) <==> p in Prices(orders, SideOf(bids))
  {
    if p in Prices(orders, SideOf(bids)) {
      var r :| r in orders && On(orders[r], SideOf(bids)) && orders[r].price == p;
      assert Counts(orders[r], bids, p);
    }
  }

  function QuoteOf(v: View, bids: bool): Option<Quote> {
    if bids then v.bid else v.ask
  }

  ghost predicate IsQuote(orders: Orders, bids: bool, q: Option<Quote>) {
    match q
    case None => forall p: u32 :: !Rests(orders, bids, p)
    case Some(best) =>
      && Rests(orders, bids, best.price) && best.shares == LevelAt(orders, SideOf(bids), best.price).shares
      && forall p: u32 :: Rests(orders, bids, p) ==> if bids then p <= best.price else best.price <= p
  }

  /** The best bid is the highest price a 'B' order rests at, the best ask the lowest price
      of any other, each with all the shares there. */
  lemma QuotesAreBest(orders: Orders, bids: bool)
    ensures IsQuote(orders, bids, QuoteOf(Observe(orders, Bids, Asks), bids))
    ensures Observe(orders, Bids, Asks).open == |orders|
  {
    forall p: u32
      ensures Rests(orders, bids, p) <==> p in Prices(orders, SideOf(bids))
    {
      RestsIffPriced(orders, bids, p);
    }
  }

  /** The level counts are those of the prices anything rests at. */
  lemma LevelsAreCounted(orders: Orders, bids: bool, ps: set<u32>)
    requires forall p: u32 :: p in ps <==> Rests(orders, bids, p)
    ensures var v := Observe(orders, Bids, Asks); (if bids then v.bidLevels else v.askLevels) == |ps|
  {
    forall p: u32
      ensures p in ps <==> p in Prices(orders, SideOf(bids))
    {
      RestsIffPriced(orders, bids, p);
    }
    assert ps == Prices(orders, SideOf(bids));
  }

  lemma QuoteIsUnique(orders: Orders, bids: bool, q: Option<Quote>)
    requires IsQuote(orders, bids, q)
    ensures q == QuoteOf(Observe(orders, Bids, Asks), bids)
  {
    QuotesAreBest(orders, bids);
    var best := QuoteOf(Observe(orders, Bids, Asks), bids);
    if best.Some? {
      assert Rests(orders, bids, best.value.price);
    }
  }

  lemma RestsAfterReduction(orders: Orders, r: Ref, shares: u32, bids: bool, p: u32)
    requires r in orders
    ensures var after := Apply(orders, Execute(r, shares)).orders;
            Rests(after, bids, p) <==>
              LevelAt(orders, SideOf(bids), p).orders
              > (if Counts(orders[r], bids, p) && shares >= orders[r].shares then 1 else 0)
  {
    var after := Apply(orders, Execute(r, shares)).orders;
    ReductionInLevels(orders, r, shares, bids, p);
    RestsIffPriced(after, bids, p);
    OccupiedIffPriced(after, SideOf(bids), p);
  }

  /** A quote whose level is not emptied stays the quote, less what was taken from it. */
  ghost predicate QuoteLoses(orders: Orders, r: Ref, shares: u32, bids: bool, before: View, after: View)
    requires r in orders
  {
    QuoteOf(before, bids).Some? ==>
      var o, q, q' := orders[r], QuoteOf(before, bids).value, QuoteOf(after, bids);
      var hit := Counts(o, bids, q.price);
      LevelAt(orders, SideOf(bids), q.price).orders > (if hit && shares >= o.shares then 1 else 0) ==>
        && q'.Some? && q'.value.price == q.price
        && q'.value.shares == q.shares - (if hit then Lesser(shares, o.shares) else 0)
  }

  lemma QuoteAfterReduction(orders: Orders, r: Ref, shares: u32, bids: bool)
    requires r in orders
    ensures QuoteLoses(orders, r, shares, bids, Observe(orders, Bids, Asks),
                       Observe(Apply(orders, Execute(r, shares)).orders, Bids, Asks))
  {
    var before := Observe(orders, Bids, Asks);
    if QuoteOf(before, bids).Some? {
      var o, q := orders[r], QuoteOf(before, bids).value;
      var after := Apply(orders, Execute(r, shares)).orders;
      QuotesAreBest(orders, bids);
      if LevelAt(orders, SideOf(bids), q.price).orders
         > (if Counts(o, bids, q.price) && shares >= o.shares then 1 else 0) {
        ReductionInLevels(orders, r, shares, bids, q.price);
        SamePricesRest(orders, r, shares, bids, q.price);
        QuoteIsUnique(after, bids, Some(Quote(q.price, LevelAt(after, SideOf(bids), q.price).shares)));
      }
    }
  }

  lemma SamePricesRest(orders: Orders, r: Ref, shares: u32, bids: bool, best: u32)
    requires r in orders
    requires LevelAt(orders, SideOf(bids), best).orders
             > (if Counts(orders[r], bids, best) && shares >= orders[r].shares then 1 else 0)
    ensures var after := Apply(orders, Execute(r, shares)).orders;
            Rests(after, bids, best) && forall p: u32 :: Rests(after, bids, p) ==> Rests(orders, bids, p)
  {
    var after := Apply(orders, Execute(r, shares)).orders;
    forall p: u32
      ensures Rests(after, bids, p) ==> Rests(orders, bids, p)
    {
      RestsAfterReduction(orders, r, shares, bids, p);
      RestsIffPriced(orders, bids, p);
      OccupiedIffPriced(orders, SideOf(bids), p);
    }
    RestsAfterReduction(orders, r, shares, bids, best);
  }
}

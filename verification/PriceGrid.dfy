/** The price window of a ladder: `lo`, `lo + tick`, ... up to `hi`, how it is first
    chosen, and how it widens. All arithmetic is that of 32-bit unsigned integers. */
module PriceGrid {
  import opened Machine
  import opened Arith

  /** Ceiling on the ticks per side that a widening may reach. */
  const MAX_TICKS: nat := 8_000_000

  /** `static_cast<uint64_t>(double(price) * window_pct)`: the floating-point product is
      left abstract, any function of the price. Adding a price to its result stays
      within 64 bits. */
  type WindowSize = x: nat | x <= TWO_64 - TWO_32
  type WindowOf = u32 -> WindowSize

  function WindowLow(base: u32, w: WindowOf): u32 {
    if w(base) < base then base - w(base) else 0
  }

  function WindowHigh(base: u32, w: WindowOf): u32 {
    Min(base + w(base), TWO_32 - 1)
  }

  function SnapToTick(price: u32, tick: u32): (p: u32)
    requires tick > 0
    ensures p <= price < p + tick && p % tick == 0
  {
    DivFloor(price, tick);
    MultipleMod(price / tick, tick);
    MulLe(0, price / tick, tick);
    price / tick * tick
  }

  datatype Grid = Grid(tick: u32, lo: u32, hi: u32) {
    ghost predicate Valid() {
      tick > 0 && lo <= hi && lo % tick == 0
    }

    function Ticks(): (n: nat)
      requires tick > 0 && lo <= hi
    {
      (hi - lo) / tick + 1
    }

    predicate Covers(p: u32) {
      lo <= p <= hi
    }

    predicate Aligned(p: u32)
      requires tick > 0
    {
      (p - lo) % tick == 0
    }

    /** Both members below are computed modulo 2^32, as the code computes them. */
    function Idx(p: u32): nat
      requires tick > 0
    {
      (p - lo) % TWO_32 / tick
    }

    function PriceAt(i: nat): u32 {
      (lo + i * tick) % TWO_32
    }
  }

  // ---------------------------------------------------------------- a grid and its prices

  lemma NoWrap(g: Grid, i: nat)
    requires g.Valid() && i < g.Ticks()
    ensures g.PriceAt(i) == g.lo + i * g.tick <= g.hi
  {
    MultipleBelow(i, g.hi - g.lo, g.tick);
    SmallMod(g.lo + i * g.tick, TWO_32);
  }

  /** Slots and aligned prices are in one-to-one correspondence, and neither index nor
      price arithmetic wraps. */
  lemma PriceOfSlot(g: Grid, i: nat)
    requires g.Valid() && i < g.Ticks()
    ensures g.PriceAt(i) == g.lo + i * g.tick
    ensures g.Covers(g.PriceAt(i)) && g.Aligned(g.PriceAt(i)) && g.Idx(g.PriceAt(i)) == i
  {
    NoWrap(g, i);
    var x := i * g.tick;
    MulLe(0, i, g.tick);
    assert g.PriceAt(i) - g.lo == x;
    SmallMod(x, TWO_32);
    MultipleMod(i, g.tick);
  }

  lemma SlotOfPrice(g: Grid, p: u32)
    requires g.Valid() && g.Covers(p)
    ensures g.Idx(p) < g.Ticks()
    ensures g.Aligned(p) ==> g.PriceAt(g.Idx(p)) == p
  {
    SmallMod(p - g.lo, TWO_32);
    DivMonotone(p - g.lo, g.hi - g.lo, g.tick);
    if g.Aligned(p) {
      AlignedPriceOfSlot(g, p);
    }
  }

  lemma AlignedPriceOfSlot(g: Grid, p: u32)
    requires g.Valid() && g.Covers(p) && g.Aligned(p) && g.Idx(p) < g.Ticks()
    ensures g.PriceAt(g.Idx(p)) == p
  {
    SmallMod(p - g.lo, TWO_32);
    DivFloor(p - g.lo, g.tick);
    NoWrap(g, g.Idx(p));
  }

  lemma SlotsAscend(g: Grid, i: nat, j: nat)
    requires g.Valid() && i < j < g.Ticks()
    ensures g.PriceAt(i) < g.PriceAt(j)
  {
    PriceOfSlot(g, i);
    PriceOfSlot(g, j);
    MulLe(i + 1, j, g.tick);
    MulAdd(i, 1, g.tick);
  }

  /** Anchoring to absolute multiples of the tick: every grid of a tick size accepts
      the same prices. */
  lemma AlignedIsAbsolute(g: Grid, p: u32)
    requires g.Valid()
    ensures g.Aligned(p) <==> p % g.tick == 0
  {
    SubMultiple(p, g.lo, g.tick);
  }

  // ---------------------------------------------------------------- choosing and widening

  /** The window a constructor call chooses. Its `max < min` exception cannot fire:
      the result is always a valid grid covering the base price. */
  function Initial(base: u32, tickSize: u32, w: WindowOf): (g: Grid)
    ensures g.Valid() && g.Covers(base)
  {
    var tick: u32 := if tickSize == 0 then 1 else tickSize;
    Grid(tick, SnapToTick(WindowLow(base, w), tick), WindowHigh(base, w))
  }

  /** A window of a fifth of the price, the constructor's default. */
  function FifthOf(): WindowOf {
    (p: u32) => p / 5
  }

  /** The constructor does not check the ceiling. */
  lemma InitialIgnoresCeiling()
    ensures Initial(100_000_000, 1, FifthOf()).Ticks() > MAX_TICKS
  {
  }

  /** `grow_to_include`: the widened window, or None when it would exceed the ceiling. */
  function Widen(g: Grid, w: WindowOf, p: u32): (r: Option<Grid>)
    requires g.Valid()
  {
    var lo := if p < g.lo then Min(g.lo, SnapToTick(WindowLow(p, w), g.tick)) else g.lo;
    var hi := if p > g.hi then Max(g.hi, WindowHigh(p, w)) else g.hi;
    if lo == g.lo && hi == g.hi then Some(g)
    else
      var wider := Grid(g.tick, lo, hi);
      if wider.Ticks() > MAX_TICKS then None else Some(wider)
  }

  function Offset(g: Grid, g': Grid): nat
    requires g.tick > 0 && g'.lo <= g.lo
  {
    (g.lo - g'.lo) / g.tick
  }

  /** g' extends g at either end by whole ticks. */
  ghost predicate Extends(g': Grid, g: Grid) {
    g.Valid() && g'.Valid() && g'.tick == g.tick && g'.lo <= g.lo && g.hi <= g'.hi
  }

  lemma WidenCovers(g: Grid, w: WindowOf, p: u32)
    requires g.Valid()
    ensures Widen(g, w, p).Some? ==>
              Extends(Widen(g, w, p).value, g) && Widen(g, w, p).value.Covers(p)
    ensures Widen(g, w, p).Some? && g.Ticks() <= MAX_TICKS ==> Widen(g, w, p).value.Ticks() <= MAX_TICKS
    ensures g.Covers(p) ==> Widen(g, w, p) == Some(g)
  {
  }

  /** Where the window around a price begins and ends: down to a whole tick below, and up
      to the largest 32-bit number. */
  function Below(p: u32, w: WindowOf, tick: u32): nat
    requires tick > 0
  {
    var low := if w(p) < p then p - w(p) else 0;
    low - low % tick
  }

  function Above(p: u32, w: WindowOf): nat {
    if p + w(p) < 4_294_967_295 then p + w(p) else 4_294_967_295
  }

  lemma SnapIsBelow(p: u32, w: WindowOf, tick: u32)
    requires tick > 0
    ensures SnapToTick(WindowLow(p, w), tick) == Below(p, w, tick) <= p
  {
    DivFloor(WindowLow(p, w), tick);
  }

  /** The window a constructor call chooses, in plain numbers. */
  lemma InitialIs(base: u32, tickSize: u32, w: WindowOf)
    ensures var g := Initial(base, tickSize, w);
            && g.tick == (if tickSize == 0 then 1 else tickSize)
            && g.lo == Below(base, w, g.tick) && g.hi == Above(base, w)
  {
    SnapIsBelow(base, w, if tickSize == 0 then 1 else tickSize);
  }

  /** Reaching a price outside the window would make more than 8,000,000 ticks. */
  predicate TooFar(g: Grid, w: WindowOf, p: u32)
    requires g.tick > 0
  {
    || (p < g.lo && (g.hi - Below(p, w, g.tick)) / g.tick + 1 > 8_000_000)
    || (p > g.hi && (Above(p, w) - g.lo) / g.tick + 1 > 8_000_000)
  }

  /** The window moved out, at the one end that has to, to that end of the window around
      the price. */
  function Reach(g: Grid, w: WindowOf, p: u32): Grid
    requires g.tick > 0
  {
    if p < g.lo then Grid(g.tick, Below(p, w, g.tick), g.hi)
    else if p > g.hi then Grid(g.tick, g.lo, Above(p, w))
    else g
  }

  /** A widening is refused exactly when it would take more than 8,000,000 ticks; granted,
      it moves one end only. */
  lemma WideningIs(g: Grid, w: WindowOf, p: u32)
    requires g.Valid()
    ensures Widen(g, w, p) == if TooFar(g, w, p) then None else Some(Reach(g, w, p))
  {
    SnapIsBelow(p, w, g.tick);
  }

  /** The division that gives the offset is exact, every old slot has a new home, and
      the home has the same price. */
  lemma OffsetIsExact(g: Grid, g': Grid)
    requires Extends(g', g)
    ensures g.lo - g'.lo == Offset(g, g') * g.tick
    ensures Offset(g, g') + g.Ticks() <= g'.Ticks()
  {
    MultiplesApart(g.lo, g'.lo, g.tick);
    RoomFor(Offset(g, g'), g.hi - g.lo, g'.hi - g'.lo, g.tick);
  }

  lemma RoomFor(k: int, span: int, wider: int, d: int)
    requires d > 0 && k * d + span <= wider
    ensures k + span / d <= wider / d
  {
    DivFloor(span, d);
    DivFloor(wider, d);
    MulAdd(k, span / d, d);
    FloorLe(k + span / d, 0, wider / d, wider % d, d);
  }

  lemma RehomedPrice(g: Grid, g': Grid, i: nat)
    requires Extends(g', g) && i < g.Ticks()
    ensures i + Offset(g, g') < g'.Ticks() && g'.PriceAt(i + Offset(g, g')) == g.PriceAt(i)
  {
    OffsetIsExact(g, g');
    PriceOfSlot(g, i);
    PriceOfSlot(g', i + Offset(g, g'));
    MulAdd(i, Offset(g, g'), g.tick);
  }

  /** A slot of the wider grid whose price the old grid covers is the home of an old slot. */
  lemma HomeOfOldPrice(g: Grid, g': Grid, j: nat)
    requires Extends(g', g) && j < g'.Ticks() && g.Covers(g'.PriceAt(j))
    ensures Offset(g, g') <= j < Offset(g, g') + g.Ticks()
  {
    var p := g'.PriceAt(j);
    PriceOfSlot(g', j);
    AlignedIsAbsolute(g', p);
    AlignedIsAbsolute(g, p);
    SlotOfPrice(g, p);
    RehomedPrice(g, g', g.Idx(p));
    PriceOfSlot(g', g.Idx(p) + Offset(g, g'));
  }
}

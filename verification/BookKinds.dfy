/** The two kinds of book a builder can hold, as the pipeline makes them. */
module BookKinds {
  import opened Machine
  import opened BookSpec
  import opened PriceGrid
  import opened LadderSpec
  import Itch
  import B = BookBuilders
  import opened ReferenceModels
  import Simulation

  const FALLBACK_BASE: u32 := 500_000
  const TICK_SIZE: u32 := 100
  const MAX_SANE_PRICE: u32 := 100_000_000

  type ValidLadder = s: LadderState | s.Valid() ghost witness LadderState(Grid(1, 0, 0), map[])

  /** `BookTraits<LadderBook>::make`: an absurd or missing first price falls back. */
  function BaseFor(hint: u32): u32 {
    if hint != 0 && hint <= MAX_SANE_PRICE then hint else FALLBACK_BASE
  }

  function MakeLadder(w: WindowOf, hint: u32): ValidLadder {
    LadderState(Initial(BaseFor(hint), TICK_SIZE, w), map[])
  }

  function DriveLadder(w: WindowOf, s: ValidLadder, op: Op): (ValidLadder, bool) {
    LadderApplyIsValid(s, w, op);
    var r := LadderApply(s, w, op);
    (r.state, r.ok)
  }

  function LadderKind(w: WindowOf): B.BookKind<ValidLadder> {
    B.BookKind((hint: u32) => MakeLadder(w, hint), (s: ValidLadder, op: Op) => DriveLadder(w, s, op))
  }

  function MapKind(): B.BookKind<Orders> {
    B.BookKind((_: u32) => map[], (m: Orders, op: Op) => (Apply(m, op).orders, Apply(m, op).ok))
  }

  // ---------------------------------------------------------------- allocation ceiling

  /** No window is wider than the price it is taken around (a fraction of at most 1). */
  ghost predicate Fractional(w: WindowOf) {
    forall p: u32 :: w(p) <= p
  }

  ghost predicate UnderCeiling(s: LadderState) {
    s.Valid() && s.grid.Ticks() <= MAX_TICKS
  }

  /** A ladder the pipeline makes starts under the ceiling whatever the first price was,
      even though only growth checks it. */
  lemma MadeUnderCeiling(w: WindowOf, hint: u32)
    requires Fractional(w)
    ensures UnderCeiling(MakeLadder(w, hint))
  {
    var base := BaseFor(hint);
    assert w(base) <= base;
    var g := MakeLadder(w, hint).grid;
    assert g.hi - g.lo <= 2 * MAX_SANE_PRICE;
  }

  lemma StaysUnderCeiling(w: WindowOf, s: LadderState, op: Op)
    requires UnderCeiling(s)
    ensures UnderCeiling(LadderApply(s, w, op).state)
  {
    LadderApplyIsValid(s, w, op);
    match op
    case Add(_, _, _, price) => WidenCovers(s.grid, w, price);
    case Replace(_, _, _, price) => WidenCovers(s.grid, w, price);
    case _ =>
  }

  /** The ladder of a locate after its messages, and the one its next message meets. */
  ghost function LadderAfter(w: WindowOf, ms: seq<Itch.Message>): Option<ValidLadder> {
    B.BookOf<ValidLadder>(LadderKind(w), ms)
  }

  ghost function LadderMet(w: WindowOf, ms: seq<Itch.Message>, m: Itch.Message): ValidLadder {
    var before := LadderAfter(w, ms);
    if before.Some? then before.value else MakeLadder(w, B.HintOf(m))
  }

  lemma LadderMoves(w: WindowOf, ms: seq<Itch.Message>)
    requires ms != []
    ensures var n := |ms| - 1;
            LadderAfter(w, ms) == Some(DriveLadder(w, LadderMet(w, ms[..n], ms[n]), B.OpOf(ms[n])).0)
  {
  }

  /** Hence no message stream, hostile prices included, makes any locate's ladder
      allocate more than the ceiling. */
  lemma {:induction false} NeverAboveCeiling(w: WindowOf, ms: seq<Itch.Message>)
    requires Fractional(w)
    ensures LadderAfter(w, ms).Some? ==> UnderCeiling(LadderAfter(w, ms).value)
    decreases |ms|
  {
    if ms != [] {
      var n := |ms| - 1;
      NeverAboveCeiling(w, ms[..n]);
      MadeUnderCeiling(w, B.HintOf(ms[n]));
      LadderMoves(w, ms);
      StaysUnderCeiling(w, LadderMet(w, ms[..n], ms[n]), B.OpOf(ms[n]));
    }
  }

  // ---------------------------------------------------------------- the swap point

  ghost predicate SameContents(l: Option<ValidLadder>, m: Option<Orders>) {
    match l
    case None => m.None?
    case Some(s) => m == Some(s.orders)
  }

  /** No message of a locate rests a new order at a price its ladder refuses. */
  ghost predicate Unrefused(w: WindowOf, ms: seq<Itch.Message>)
    decreases |ms|
  {
    ms != [] ==>
      var n := |ms| - 1;
      Unrefused(w, ms[..n]) && !Simulation.RefusesNext(LadderMet(w, ms[..n], ms[n]), w, B.OpOf(ms[n]))
  }

  ghost function MapAfter(ms: seq<Itch.Message>): Option<Orders> {
    B.BookOf<Orders>(MapKind(), ms)
  }

  lemma MapMoves(ms: seq<Itch.Message>)
    requires ms != []
    ensures var n := |ms| - 1;
            var before := MapAfter(ms[..n]);
            MapAfter(ms) == Some(Apply(if before.Some? then before.value else map[], B.OpOf(ms[n])).orders)
  {
  }

  /** The two kinds of book hold the same orders after every one of a locate's messages. */
  ghost predicate AlwaysSame(w: WindowOf, ms: seq<Itch.Message>) {
    forall n | 0 <= n <= |ms| :: SameContents(LadderAfter(w, ms[..n]), MapAfter(ms[..n]))
  }

  lemma AlwaysSameStep(w: WindowOf, ms: seq<Itch.Message>)
    requires ms != []
    ensures AlwaysSame(w, ms) <==>
              AlwaysSame(w, ms[..|ms| - 1]) && SameContents(LadderAfter(w, ms), MapAfter(ms))
  {
    var before := ms[..|ms| - 1];
    assert ms[..|ms|] == ms;
    assert forall n | 0 <= n < |ms| :: before[..n] == ms[..n];
  }

  /** Swapping the book type behind the builder never shows in a locate's contents,
      exactly as long as its ladder refuses no price. */
  lemma {:induction false} KindsInterchange(w: WindowOf, ms: seq<Itch.Message>)
    ensures AlwaysSame(w, ms) <==> Unrefused(w, ms)
    decreases |ms|
  {
    if ms != [] {
      var n := |ms| - 1;
      KindsInterchange(w, ms[..n]);
      AlwaysSameStep(w, ms);
      if AlwaysSame(w, ms[..n]) {
        assert ms[..n][..n] == ms[..n];
        LadderMoves(w, ms);
        MapMoves(ms);
        Simulation.StepAgrees(LadderMet(w, ms[..n], ms[n]), w, B.OpOf(ms[n]));
      }
    }
  }

  // ---------------------------------------------------------------- nothing is refused

  /** The ladder the pipeline makes, in plain numbers: ticks of a cent (100 units) around the
      first price, or around 500,000 when that is 0 or above 100,000,000. */
  lemma MadeWindow(w: WindowOf, hint: u32)
    ensures var base: u32 := if 1 <= hint <= 100_000_000 then hint else 500_000;
            MakeLadder(w, hint) == LadderState(Grid(100, Below(base, w, 100), Above(base, w)), map[])
  {
    InitialIs(if 1 <= hint <= 100_000_000 then hint else 500_000, 100, w);
  }

  /** A whole number of cents, at most 10,000 dollars. */
  predicate InCents(price: u32) {
    price % 100 == 0 && price <= 100_000_000
  }

  predicate OpInCents(op: Op) {
    match op
    case Add(_, _, _, price) => InCents(price)
    case Replace(_, _, _, price) => InCents(price)
    case _ => true
  }

  ghost predicate Roomy(s: LadderState) {
    s.Valid() && s.grid.tick == 100 && s.grid.hi <= 200_000_000
  }

  lemma MadeRoomy(w: WindowOf, hint: u32)
    requires Fractional(w)
    ensures Roomy(MakeLadder(w, hint))
  {
    var base: u32 := if 1 <= hint <= 100_000_000 then hint else 500_000;
    MadeWindow(w, hint);
    assert w(base) <= base;
  }

  lemma InCentsIsTaken(w: WindowOf, g: Grid, price: u32)
    requires Fractional(w) && g.Valid() && g.tick == 100 && g.hi <= 200_000_000 && InCents(price)
    ensures !TooFar(g, w, price) && Reach(g, w, price).hi <= 200_000_000
  {
    assert w(price) <= price;
  }

  lemma StaysRoomy(w: WindowOf, s: LadderState, op: Op)
    requires Fractional(w) && Roomy(s) && OpInCents(op)
    ensures Roomy(LadderApply(s, w, op).state) && !Simulation.RefusesNext(s, w, op)
  {
    LadderApplyIsValid(s, w, op);
    match op
    case Add(ref, side, shares, price) =>
      InCentsIsTaken(w, s.grid, price);
      Simulation.RefusedIff(s.grid, w, price);
      WideningIs(s.grid, w, price);
    case Replace(_, _, _, price) =>
      InCentsIsTaken(w, s.grid, price);
      Simulation.RefusedIff(s.grid, w, price);
      WideningIs(s.grid, w, price);
    case _ =>
  }

  /** Over any run of prices in whole cents up to 10,000 dollars, a ladder the pipeline made
      refuses nothing: from it on, it shows what a map book shows. */
  lemma PipelineNeverRefuses(w: WindowOf, hint: u32, ops: seq<Op>)
    requires Fractional(w) && forall i | 0 <= i < |ops| :: OpInCents(ops[i])
    ensures var s := MakeLadder(w, hint);
            Simulation.NeverRefuses(s, w, ops) && Simulation.LadderTrace(s, w, ops) == Trace(map[], ops, Bids, Asks)
  {
    MadeRoomy(w, hint);
    RoomyNeverRefuses(w, MakeLadder(w, hint), ops);
    Simulation.LadderSimulatesMapBook(MakeLadder(w, hint), w, ops);
  }

  lemma {:induction false} RoomyNeverRefuses(w: WindowOf, s: LadderState, ops: seq<Op>)
    requires Fractional(w) && Roomy(s) && forall i | 0 <= i < |ops| :: OpInCents(ops[i])
    ensures Simulation.NeverRefuses(s, w, ops)
    decreases |ops|
  {
    if ops != [] {
      StaysRoomy(w, s, ops[0]);
      RoomyNeverRefuses(w, LadderApply(s, w, ops[0]).state, ops[1..]);
    }
  }

  /** An add or replace of a message stream at such a price. */
  predicate MessageInCents(m: Itch.Message) {
    match m
    case AddOrder(_, _, _, _, _, price) => InCents(price)
    case OrderReplace(_, _, _, _, price) => InCents(price)
    case _ => true
  }

  lemma {:induction false} StreamStaysRoomy(w: WindowOf, ms: seq<Itch.Message>)
    requires Fractional(w) && forall i | 0 <= i < |ms| :: MessageInCents(ms[i])
    ensures Unrefused(w, ms) && (LadderAfter(w, ms).Some? ==> Roomy(LadderAfter(w, ms).value))
    decreases |ms|
  {
    if ms != [] {
      var n := |ms| - 1;
      StreamStaysRoomy(w, ms[..n]);
      MadeRoomy(w, B.HintOf(ms[n]));
      LadderMoves(w, ms);
      StaysRoomy(w, LadderMet(w, ms[..n], ms[n]), B.OpOf(ms[n]));
    }
  }

  /** Every stream of messages in whole cents up to 10,000 dollars builds, locate by locate,
      the same resting orders in a ladder as in a map book. */
  lemma CentStreamsBuildTheSame(w: WindowOf, ms: seq<Itch.Message>)
    requires Fractional(w) && forall i | 0 <= i < |ms| :: MessageInCents(ms[i])
    ensures AlwaysSame(w, ms)
  {
    StreamStaysRoomy(w, ms);
    KindsInterchange(w, ms);
  }
}

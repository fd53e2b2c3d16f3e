/** What each message does to the book of its locate, written out field by field, and what
    whole streams of encoded messages build. */
module MessageEffects {
  import opened Machine
  import opened BookSpec
  import opened PriceGrid
  import opened LadderSpec
  import opened Wire
  import opened Itch
  import opened Encode
  import opened BookBuilders
  import opened BookKinds
  import opened ThreadedReplay
  import Simulation
  import T = TwoThreads
  import L = TwoThreadsLaws

  // ---------------------------------------------------------------- one message

  /** What is left once shares have traded or been cancelled. */
  function Lessened(m: Orders, ref: Ref, shares: u32): Orders {
    if ref !in m then m
    else if shares < m[ref].shares then m[ref := Order(m[ref].shares - shares, m[ref].price, m[ref].side)]
    else m - {ref}
  }

  /** The orders of a locate after a message for it. */
  function Rested(m: Orders, msg: Message): Orders {
    match msg
    case AddOrder(_, ref, side, shares, _, price) => if ref in m then m else m[ref := Order(shares, price, side)]
    case OrderExecuted(_, ref, shares, _) => Lessened(m, ref, shares)
    case OrderExecutedPrice(_, ref, shares, _, _, _) => Lessened(m, ref, shares)
    case OrderCancel(_, ref, canceled) => Lessened(m, ref, canceled)
    case OrderDelete(_, ref) => m - {ref}
    case OrderReplace(_, orig, next, shares, price) =>
      if orig !in m then m
      else if next in m && next != orig then m - {orig}
      else (m - {orig})[next := Order(shares, price, m[orig].side)]
  }

  /** The references it names are what it takes them to be: new, or resting. */
  predicate Fitting(m: Orders, msg: Message) {
    match msg
    case AddOrder(_, ref, _, _, _, _) => ref !in m
    case OrderExecuted(_, ref, _, _) => ref in m
    case OrderExecutedPrice(_, ref, _, _, _, _) => ref in m
    case OrderCancel(_, ref, _) => ref in m
    case OrderDelete(_, ref) => ref in m
    case OrderReplace(_, orig, next, _, _) => orig in m && (next == orig || next !in m)
  }

  /** The letter it is counted under. */
  function Letter(msg: Message): u8 {
    match msg
    case AddOrder(_, _, _, _, _, _) => 0x41
    case OrderExecuted(_, _, _, _) => 0x45
    case OrderExecutedPrice(_, _, _, _, _, _) => 0x43
    case OrderCancel(_, _, _) => 0x58
    case OrderDelete(_, _) => 0x44
    case OrderReplace(_, _, _, _, _) => 0x55
  }

  /** The orders a builder of map books holds for a locate. */
  function Held(slots: seq<Option<Orders>>, l: nat): Orders {
    if l < |slots| && slots[l].Some? then slots[l].value else map[]
  }

  lemma OpRests(m: Orders, msg: Message)
    ensures Apply(m, OpOf(msg)) == Outcome(Rested(m, msg), Fitting(m, msg))
  {
    if msg.OrderReplace? && msg.origRef in m {
      assert msg.newRef in m - {msg.origRef} <==> msg.newRef in m && msg.newRef != msg.origRef;
    } else if msg.OrderDelete? && msg.ref !in m {
      assert m - {msg.ref} == m;
    }
  }

  /** One message to a builder of map books: the slot of its locate is there and holds the
      map it makes of what was held, every other slot stands, its letter is counted once,
      and `unknown_refs` moves exactly when a reference it names is unknown or taken. */
  lemma MessageRests(b: Build<Orders>, msg: Message)
    requires |b.counts| == 256
    ensures var b', l := Handle(MapKind(), b, On(msg)), msg.hdr.locate;
            && |b'.slots| == (if l < |b.slots| then |b.slots| else l + 1)
            && b'.slots[l] == Some(Rested(Held(b.slots, l), msg))
            && (forall k | 0 <= k < |b'.slots| && k != l :: b'.slots[k] == if k < |b.slots| then b.slots[k] else None)
            && b'.counts == b.counts[Letter(msg) := b.counts[Letter(msg)] + 1]
            && b'.unknownRefs == b.unknownRefs + (if Fitting(Held(b.slots, l), msg) then 0 else 1)
  {
    OpRests(Held(b.slots, msg.hdr.locate), msg);
  }

  /** A skipped frame is counted under its own byte and does nothing else. */
  lemma OtherIsCounted(b: Build<Orders>, kind: u8, len: nat)
    requires |b.counts| == 256
    ensures Handle(MapKind(), b, OnOther(kind, len)) == b.(counts := b.counts[kind := b.counts[kind] + 1])
  {
  }

  // ---------------------------------------------------------------- one message to a ladder

  /** The price of the order a message would rest, if it would rest one. */
  function NewPrice(msg: Message): Option<u32> {
    match msg
    case AddOrder(_, _, _, _, _, price) => Some(price)
    case OrderReplace(_, _, _, _, price) => Some(price)
    case _ => None
  }

  /** The ladder a message meets: the one there, or one made around its own price, or
      around 500,000 when it has none between 1 and 100,000,000. */
  function Met(w: WindowOf, slots: seq<Option<ValidLadder>>, msg: Message): LadderState {
    var l, p := msg.hdr.locate, NewPrice(msg);
    if l < |slots| && slots[l].Some? then slots[l].value
    else
      var base: u32 := if p.Some? && 1 <= p.value <= 100_000_000 then p.value else 500_000;
      LadderState(Grid(100, Below(base, w, 100), Above(base, w)), map[])
  }

  ghost predicate OffLadder(s: LadderState, w: WindowOf, msg: Message)
    requires s.Valid()
  {
    NewPrice(msg).Some? && (NewPrice(msg).value % s.grid.tick != 0 || TooFar(s.grid, w, NewPrice(msg).value))
  }

  /** The same for a builder of ladders: a price off the grid or too far keeps the new order
      out, a replaced one being gone all the same. */
  lemma MessageRestsInLadder(w: WindowOf, b: Build<ValidLadder>, msg: Message)
    requires |b.counts| == 256
    ensures var b', l, s := Handle(LadderKind(w), b, On(msg)), msg.hdr.locate, Met(w, b.slots, msg);
            && s.Valid() && |b'.slots| == (if l < |b.slots| then |b.slots| else l + 1) && b'.slots[l].Some?
            && (!OffLadder(s, w, msg) ==>
                  && b'.slots[l].value.orders == Rested(s.orders, msg)
                  && b'.unknownRefs == b.unknownRefs + (if Fitting(s.orders, msg) then 0 else 1))
            && (OffLadder(s, w, msg) ==>
                  && b'.slots[l].value.orders == (if msg.OrderReplace? then s.orders - {msg.origRef} else s.orders)
                  && b'.unknownRefs == b.unknownRefs + 1)
  {
    var l := msg.hdr.locate;
    MadeWindow(w, HintOf(msg));
    var s: ValidLadder := WithBook(LadderKind(w), b.slots, l, HintOf(msg))[l].value;
    assert s == Met(w, b.slots, msg);
    LadderTakes(w, s, msg);
  }

  lemma LadderTakes(w: WindowOf, s: LadderState, msg: Message)
    requires s.Valid()
    ensures var a := LadderApply(s, w, OpOf(msg));
            if OffLadder(s, w, msg)
            then !a.ok && a.state.orders == if msg.OrderReplace? then s.orders - {msg.origRef} else s.orders
            else a.ok == Fitting(s.orders, msg) && a.state.orders == Rested(s.orders, msg)
  {
    OpRests(s.orders, msg);
    match msg
    case AddOrder(_, ref, side, shares, _, price) =>
      Simulation.LadderAdditionRests(s, w, ref, side, shares, price);
    case OrderReplace(_, orig, next, shares, price) =>
      Simulation.LadderReplacementRests(s, w, orig, next, shares, price);
      if orig !in s.orders {
        assert s.orders - {orig} == s.orders;
      }
    case _ =>
  }

  // ---------------------------------------------------------------- whole streams

  /** The orders of a locate after a list of items, from an empty book: each of its own
      messages in turn. */
  function Played(items: seq<Item>, l: nat): Orders {
    if items == [] then map[]
    else
      var before, i := Played(items[..|items| - 1], l), items[|items| - 1];
      if i.Encodable? && i.m.hdr.locate == l then Rested(before, i.m) else before
  }

  /** How many messages named a reference that was unknown or taken. */
  function Misfits(items: seq<Item>): nat {
    if items == [] then 0
    else
      var before, i := items[..|items| - 1], items[|items| - 1];
      Misfits(before) + (if i.Encodable? && !Fitting(Played(before, i.m.hdr.locate), i.m) then 1 else 0)
  }

  function Lettered(items: seq<Item>, t: u8): nat {
    if items == [] then 0
    else
      var i := items[|items| - 1];
      Lettered(items[..|items| - 1], t)
      + (if t == (match i case Encodable(m) => Letter(m) case Skipped(b) => if b == [] then 0 else b[0]) then 1 else 0)
  }

  /** The builder holds what the items say. */
  ghost predicate Holds(b: Build<Orders>, items: seq<Item>) {
    && |b.counts| == 256 && b.unknownRefs == Misfits(items)
    && (forall l: nat :: Held(b.slots, l) == Played(items, l))
    && (forall t: u8 :: b.counts[t] == Lettered(items, t))
  }

  /** The stored ticker and the header's timestamp make no difference to a book. */
  lemma StoredRests(m: Orders, msg: Message)
    ensures Rested(m, Stored(msg)) == Rested(m, msg) && Fitting(m, Stored(msg)) == Fitting(m, msg)
    ensures Letter(Stored(msg)) == Letter(msg) && Stored(msg).hdr == msg.hdr
  {
  }

  lemma HoldsOneMore(b: Build<Orders>, items: seq<Item>)
    requires items != [] && Streamable(items[|items| - 1]) && Holds(b, items[..|items| - 1])
    ensures Holds(Handle(MapKind(), b, Expected(items[|items| - 1])), items)
  {
    var i := items[|items| - 1];
    var b' := Handle(MapKind(), b, Expected(i));
    match i
    case Skipped(bytes) => OtherIsCounted(b, bytes[0], |bytes|);
    case Encodable(m) =>
      StoredRests(Held(b.slots, m.hdr.locate), m);
      MessageRests(b, Stored(m));
      forall l: nat
        ensures Held(b'.slots, l) == Played(items, l)
      {
        assert Held(b.slots, l) == Played(items[..|items| - 1], l);
      }
  }

  lemma {:induction false} ItemsAreHeld(items: seq<Item>, cs: seq<Call>)
    requires |cs| == |items| && forall i | 0 <= i < |items| :: Streamable(items[i]) && cs[i] == Expected(items[i])
    ensures Holds(HandleAll(MapKind(), Fresh(), cs), items)
    decreases |items|
  {
    if items != [] {
      var n := |items| - 1;
      ItemsAreHeld(items[..n], cs[..n]);
      HoldsOneMore(HandleAll(MapKind(), Fresh(), cs[..n]), items);
    }
  }

  /** Any list of messages, encoded and framed, with frames of other types between them and
      a partial frame at the end: parsed and replayed into map books, it leaves for every
      locate exactly the orders its own messages make, and the counts of letters and of
      references that did not fit. */
  lemma StreamBuildsBooks(items: seq<Item>, tail: Bytes)
    requires forall i | 0 <= i < |items| :: Streamable(items[i])
    requires FirstFrame(tail).None?
    ensures Holds(HandleAll(MapKind(), Fresh(), Calls(Concatenated(Payloads(items)) + tail)), items)
  {
    StreamRoundTrip(items, tail);
    ItemsAreHeld(items, Calls(Concatenated(Payloads(items)) + tail));
  }

  lemma PayloadHasItsLength(i: Item)
    requires Streamable(i)
    ensures PayloadOf(i) != [] && !WrongLength(PayloadOf(i))
  {
    PayloadRoundTrip(i);
    MislabelledIsWrongLength(PayloadOf(i));
  }

  /** And so it does across the queue: for every capacity and every interleaving of the two
      threads, stale loads included, once the consumer has left its loop. */
  lemma ThreadedStreamBuildsBooks(items: seq<Item>, tail: Bytes, bits: nat,
                                  s0: T.Sys<Envelope>, acts: seq<T.Action>, s: T.Sys<Envelope>)
    requires forall i | 0 <= i < |items| :: Streamable(items[i])
    requires FirstFrame(tail).None? && bits <= 64
    requires T.Start(Pipeline(bits, Concatenated(Payloads(items)) + tail), s0)
    requires (T.InvAtStart(Pipeline(bits, Concatenated(Payloads(items)) + tail), s0);
              L.Reaches(Pipeline(bits, Concatenated(Payloads(items)) + tail), s0, acts, s))
    requires s.c == T.ConsumerEnd
    ensures Holds(HandleAll(MapKind(), Fresh(), UnpackedAll(s.out)), items) && |s.out| == |items|
  {
    var data := Concatenated(Payloads(items)) + tail;
    FramesOfItems(items, tail);
    StreamRoundTrip(items, tail);
    ThreadedEqualsSingle(MapKind(), bits, data, s0, acts, s);
    StreamBuildsBooks(items, tail);
  }

  lemma FramesOfItems(items: seq<Item>, tail: Bytes)
    requires forall i | 0 <= i < |items| :: Streamable(items[i])
    requires FirstFrame(tail).None?
    ensures Frames(Concatenated(Payloads(items)) + tail) == Payloads(items)
    ensures forall i | 0 <= i < |items| :: Payloads(items)[i] != [] && !WrongLength(Payloads(items)[i])
  {
    forall i | 0 <= i < |items|
      ensures 0 < |Payloads(items)[i]| < 0x1_0000 && !WrongLength(Payloads(items)[i])
    {
      PayloadRoundTrip(items[i]);
      PayloadHasItsLength(items[i]);
    }
    StreamWalks(Payloads(items), tail);
    NoFrame(tail);
    assert Payloads(items) + [] == Payloads(items);
  }

  // ---------------------------------------------------------------- frames of wrong length

  /** The orders of locate 0 after such a frame. */
  function Zeroing(m: Orders, kind: u8): Orders {
    if kind == 0x41 || kind == 0x46 then if 0 in m then m else m[0 := Order(0, 0, Side(0))]
    else if 0 !in m then m
    else if kind == 0x55 then (m - {0})[0 := Order(0, 0, m[0].side)]
    else if kind == 0x44 || m[0].shares == 0 then m - {0}
    else m
  }

  lemma ZeroedRests(m: Orders, kind: u8)
    requires kind in {0x41, 0x46, 0x45, 0x43, 0x58, 0x44, 0x55}
    ensures Rested(m, Zeroed(kind)) == Zeroing(m, kind)
    ensures Fitting(m, Zeroed(kind)) == if kind == 0x41 || kind == 0x46 then 0 !in m else 0 in m
    ensures Letter(Zeroed(kind)) == if kind == 0x46 then 0x41 else kind
  {
    if 0 in m && m[0].shares > 0 {
      assert m[0 := Order(m[0].shares - 0, m[0].price, m[0].side)] == m;
    }
    if 0 !in m {
      assert m - {0} == m;
    }
  }

  /** What a frame of a known type and the wrong length does once it has crossed the queue:
      at locate 0, to order 0, with zeros for everything it should have carried. */
  lemma WrongLengthRests(b: Build<Orders>, kind: u8, len: nat)
    requires |b.counts| == 256 && kind in {0x41, 0x46, 0x45, 0x43, 0x58, 0x44, 0x55}
    ensures var b', m := Handle(MapKind(), b, Unpacked(Packed(OnOther(kind, len)))), Held(b.slots, 0);
            var counted: u8 := if kind == 0x46 then 0x41 else kind;
            && b'.slots != [] && b'.slots[0] == Some(Zeroing(m, kind))
            && b'.counts == b.counts[counted := b.counts[counted] + 1]
            && b'.unknownRefs == b.unknownRefs + (if (kind == 0x41 || kind == 0x46) == (0 in m) then 1 else 0)
  {
    assert Unpacked(Packed(OnOther(kind, len))) == On(Zeroed(kind));
    MessageRests(b, Zeroed(kind));
    ZeroedRests(Held(b.slots, 0), kind);
  }
}

/** One book per stock locate, per-type counts and the count of refused events, whatever
    kind of book is held. */
module BookBuilders {
  import opened Machine
  import opened BookSpec
  import opened Itch
  import opened Wire

  /** How books of one type are made and driven. */
  datatype BookKind<!B> = BookKind(make: u32 -> B, apply: (B, Op) -> (B, bool))

  function TagOf(m: Message): u8 {
    match m
    case AddOrder(_, _, _, _, _, _) => A
    case OrderExecuted(_, _, _, _) => E
    case OrderExecutedPrice(_, _, _, _, _, _) => C
    case OrderCancel(_, _, _) => X
    case OrderDelete(_, _) => D
    case OrderReplace(_, _, _, _, _) => U
  }

  function OpOf(m: Message): Op {
    match m
    case AddOrder(_, ref, side, shares, _, price) => Add(ref, side, shares, price)
    case OrderExecuted(_, ref, shares, _) => Execute(ref, shares)
    case OrderExecutedPrice(_, ref, shares, _, _, _) => Execute(ref, shares)
    case OrderCancel(_, ref, canceled) => Cancel(ref, canceled)
    case OrderDelete(_, ref) => Remove(ref)
    case OrderReplace(_, orig, next, shares, price) => Replace(orig, next, shares, price)
  }

  /** The price handed to the maker on first sight of a locate. */
  function HintOf(m: Message): u32 {
    match m
    case AddOrder(_, _, _, _, _, price) => price
    case OrderReplace(_, _, _, _, price) => price
    case _ => 0
  }

  function CountedAs(c: Call): u8 {
    match c
    case On(m) => TagOf(m)
    case OnOther(kind, _) => kind
  }

  datatype Build<!B> = Build(slots: seq<Option<B>>, counts: seq<nat>, unknownRefs: nat)

  function Fresh<B>(): Build<B> {
    Build([], seq(256, _ => 0), 0)
  }

  function SlotOf<B>(slots: seq<Option<B>>, l: nat): Option<B> {
    if l < |slots| then slots[l] else None
  }

  /** `slots_.resize` followed by `emplace` on first sight. */
  function WithBook<B>(k: BookKind<B>, slots: seq<Option<B>>, l: nat, hint: u32): (r: seq<Option<B>>)
    ensures l < |r| && r[l].Some?
  {
    var grown := if l >= |slots| then slots + seq(l + 1 - |slots|, _ => None) else slots;
    if grown[l].None? then grown[l := Some(k.make(hint))] else grown
  }

  function Tallied<B>(b: Build<B>, tag: u8): Build<B>
    requires |b.counts| == 256
  {
    b.(counts := b.counts[tag := b.counts[tag] + 1])
  }

  /** What one handler call does to the builder. */
  function Handle<B>(k: BookKind<B>, b: Build<B>, c: Call): (r: Build<B>)
    requires |b.counts| == 256
    ensures |r.counts| == 256
  {
    var b := Tallied(b, CountedAs(c));
    match c
    case OnOther(_, _) => b
    case On(m) =>
      var l := m.hdr.locate;
      var slots := WithBook(k, b.slots, l, HintOf(m));
      var (book, ok) := k.apply(slots[l].value, OpOf(m));
      b.(slots := slots[l := Some(book)], unknownRefs := if ok then b.unknownRefs else b.unknownRefs + 1)
  }

  function HandleAll<B>(k: BookKind<B>, b: Build<B>, cs: seq<Call>): (r: Build<B>)
    requires |b.counts| == 256
    ensures |r.counts| == 256
    decreases |cs|
  {
    if cs == [] then b else Handle(k, HandleAll(k, b, cs[..|cs| - 1]), cs[|cs| - 1])
  }

  class BookBuilder<B> {
    const kind: BookKind<B>
    var slots: seq<Option<B>>
    const counts: array<nat>
    var unknownRefs: nat

    ghost predicate Valid()
      reads this, counts
    {
      counts.Length == 256
    }

    ghost function State(): Build<B>
      reads this, counts
    {
      Build(slots, counts[..], unknownRefs)
    }

    constructor (kind: BookKind<B>)
      ensures Valid() && State() == Fresh<B>() && fresh(counts) && this.kind == kind
    {
      this.kind := kind;
      slots, unknownRefs := [], 0;
      counts := new nat[256](_ => 0);
    }

    method Bump(tag: u8)
      requires Valid()
      modifies counts
      ensures Valid() && State() == Tallied(old(State()), tag)
    {
      counts[tag] := counts[tag] + 1;
    }

    method GetOrCreate(locate: u16, hint: u32)
      requires Valid()
      modifies this`slots
      ensures Valid() && slots == WithBook(kind, old(slots), locate, hint)
    {
      if locate >= |slots| {
        slots := slots + seq(locate + 1 - |slots|, _ => None);
      }
      if slots[locate].None? {
        slots := slots[locate := Some(kind.make(hint))];
      }
    }

    /** The `on_*` entry points. */
    method Receive(c: Call)
      requires Valid()
      modifies this`slots, this`unknownRefs, counts
      ensures Valid() && State() == Handle(kind, old(State()), c)
    {
      Bump(CountedAs(c));
      match c {
        case OnOther(_, _) =>
        case On(m) =>
          var l := m.hdr.locate;
          GetOrCreate(l, HintOf(m));
          var (book, ok) := kind.apply(slots[l].value, OpOf(m));
          slots := slots[l := Some(book)];
          if !ok {
            unknownRefs := unknownRefs + 1;
          }
      }
    }
  }

  // ---------------------------------------------------------------- independence of locates

  /** The messages of one locate, in order. */
  function ForLocate(cs: seq<Call>, l: nat): seq<Message> {
    if cs == [] then []
    else
      var before, c := ForLocate(cs[..|cs| - 1], l), cs[|cs| - 1];
      if c.On? && c.m.hdr.locate == l then before + [c.m] else before
  }

  /** One book, made at its first message and fed its messages alone. */
  function BookOf<B>(k: BookKind<B>, ms: seq<Message>): Option<B> {
    if ms == [] then None
    else
      var m := ms[|ms| - 1];
      var before := BookOf(k, ms[..|ms| - 1]);
      var book := if before.Some? then before.value else k.make(HintOf(m));
      Some(k.apply(book, OpOf(m)).0)
  }

  /** Each locate's book is the fold of that locate's messages alone. */
  lemma {:induction false} LocatesAreIndependent<B>(k: BookKind<B>, cs: seq<Call>, l: nat)
    ensures SlotOf(HandleAll(k, Fresh(), cs).slots, l) == BookOf(k, ForLocate(cs, l))
    decreases |cs|
  {
    if cs != [] {
      var n := |cs| - 1;
      var b := HandleAll(k, Fresh<B>(), cs[..n]);
      LocatesAreIndependent(k, cs[..n], l);
      HandleTouchesOneSlot(k, b, cs[n], l);
      var ms := ForLocate(cs[..n], l);
      if cs[n].On? {
        assert (ms + [cs[n].m])[..|ms|] == ms;
      }
    }
  }

  lemma HandleTouchesOneSlot<B>(k: BookKind<B>, b: Build<B>, c: Call, l: nat)
    requires |b.counts| == 256
    ensures SlotOf(Handle(k, b, c).slots, l)
         == if c.On? && c.m.hdr.locate == l
            then var s := SlotOf(b.slots, l);
                 Some(k.apply(if s.Some? then s.value else k.make(HintOf(c.m)), OpOf(c.m)).0)
            else SlotOf(b.slots, l)
  {
  }

  // ---------------------------------------------------------------- conservation

  function Sum(s: seq<nat>): nat {
    if s == [] then 0 else Sum(s[..|s| - 1]) + s[|s| - 1]
  }

  lemma {:induction false} SumAfterBump(s: seq<nat>, i: nat)
    requires i < |s|
    ensures Sum(s[i := s[i] + 1]) == Sum(s) + 1
    decreases |s|
  {
    var n := |s| - 1;
    var t := s[i := s[i] + 1];
    if i < n {
      SumAfterBump(s[..n], i);
      assert t[..n] == s[..n][i := s[i] + 1];
    } else {
      assert t[..n] == s[..n];
    }
  }

  lemma {:induction false} SumOfZeros(n: nat)
    ensures Sum(seq(n, _ => 0)) == 0
    decreases n
  {
    if n > 0 {
      assert seq(n, _ => 0)[..n - 1] == seq(n - 1, _ => 0);
      SumOfZeros(n - 1);
    }
  }

  /** Messages of one locate that its own book refused, counted against the fold of what
      came before. */
  function Refused<B>(k: BookKind<B>, cs: seq<Call>): nat {
    if cs == [] then 0
    else
      var before, c := cs[..|cs| - 1], cs[|cs| - 1];
      Refused(k, before) +
      match c
      case OnOther(_, _) => 0
      case On(m) =>
        var s := BookOf(k, ForLocate(before, m.hdr.locate));
        if k.apply(if s.Some? then s.value else k.make(HintOf(m)), OpOf(m)).1 then 0 else 1
  }

  function Occurrences(cs: seq<Call>, tag: u8): nat {
    if cs == [] then 0
    else Occurrences(cs[..|cs| - 1], tag) + (if CountedAs(cs[|cs| - 1]) == tag then 1 else 0)
  }

  lemma {:induction false} CountsAreOccurrences<B>(k: BookKind<B>, cs: seq<Call>)
    ensures var b := HandleAll(k, Fresh(), cs);
            Sum(b.counts) == |cs| && forall t: u8 :: b.counts[t] == Occurrences(cs, t)
    decreases |cs|
  {
    if cs == [] {
      SumOfZeros(256);
    } else {
      var n := |cs| - 1;
      CountsAreOccurrences(k, cs[..n]);
      SumAfterBump(HandleAll(k, Fresh<B>(), cs[..n]).counts, CountedAs(cs[n]));
    }
  }

  lemma {:induction false} UnknownRefsAreRefusals<B>(k: BookKind<B>, cs: seq<Call>)
    ensures HandleAll(k, Fresh(), cs).unknownRefs == Refused(k, cs)
    decreases |cs|
  {
    if cs != [] {
      var n := |cs| - 1;
      UnknownRefsAreRefusals(k, cs[..n]);
      if cs[n].On? {
        LocatesAreIndependent(k, cs[..n], cs[n].m.hdr.locate);
      }
    }
  }

  /** Single-threaded replay of a buffer: every call of the parser goes into the builder. */
  method Replay<B>(kind: BookKind<B>, data: Bytes) returns (builder: BookBuilder<B>, frames: nat)
    ensures builder.Valid() && builder.State() == HandleAll(kind, Fresh<B>(), Calls(data))
    ensures frames == |Frames(data)|
  {
    builder := new BookBuilder<B>(kind);
    var calls;
    frames, calls := ParseStream(data);
    var i := 0;
    while i < |calls|
      invariant 0 <= i <= |calls| && builder.Valid() && builder.kind == kind
      invariant fresh(builder) && fresh(builder.counts)
      invariant builder.State() == HandleAll(kind, Fresh<B>(), calls[..i])
    {
      assert calls[..i + 1][..i] == calls[..i];
      builder.Receive(calls[i]);
      i := i + 1;
    }
    assert calls[..i] == calls;
  }
}

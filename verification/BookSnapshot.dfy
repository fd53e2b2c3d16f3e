/** Read-only snapshots of a book table, and the store they are published in. */
module BookSnapshots {
  import opened Machine
  import opened BookSpec
  import opened LadderBooks
  import opened OrderBooks

  /** The book types a table is instantiated with. */
  datatype Book = Ladder(l: LadderBook) | Maps(m: OrderBook)

  ghost function Parts(b: Book): set<object>
    reads match b case Ladder(l) => {l} case Maps(_) => {}
  {
    match b
    case Ladder(l) => {l, l.bids, l.asks}
    case Maps(m) => {m}
  }

  /** A slot of the table and the resting orders of the book in it. */
  ghost predicate Holds(slot: Option<Book>, orders: Option<Orders>)
    reads match slot case Some(b) => Parts(b) case None => {}
  {
    match slot
    case None => orders.None?
    case Some(Ladder(l)) => l.Valid() && orders == Some(l.orders)
    case Some(Maps(m)) => m.Valid() && orders == Some(m.orders)
  }

  datatype LocateSnapshot = LocateSnapshot(locate: nat, view: View)

  /** The live view of a book: a scan of its resting orders. */
  ghost function Live(orders: Orders): View {
    Observe(orders, Bids, Asks)
  }

  /** The built books below n, in locate order, each with its live view. */
  ghost function SnapshotsBelow(table: seq<Option<Orders>>, n: nat): seq<LocateSnapshot>
    requires n <= |table|
  {
    if n == 0 then []
    else
      SnapshotsBelow(table, n - 1)
      + (if table[n - 1].Some? then [LocateSnapshot(n - 1, Live(table[n - 1].value))] else [])
  }

  method LookAt(b: Book, ghost orders: Orders) returns (v: View)
    requires Holds(Some(b), Some(orders))
    ensures v == Live(orders)
  {
    match b {
      case Ladder(l) => v := l.Look();
      case Maps(m) => v := m.Look();
    }
  }

  /** The entry of one slot, none if it is empty. */
  method EntryFor(slot: Option<Book>, locate: nat, ghost orders: Option<Orders>) returns (out: seq<LocateSnapshot>)
    requires Holds(slot, orders)
    ensures out == if orders.Some? then [LocateSnapshot(locate, Live(orders.value))] else []
  {
    out := [];
    if slot.Some? {
      var view := LookAt(slot.value, orders.value);
      out := [LocateSnapshot(locate, view)];
    }
  }

  method SnapshotBookTable(slots: seq<Option<Book>>, ghost table: seq<Option<Orders>>)
    returns (out: seq<LocateSnapshot>)
    requires |table| == |slots| && forall i | 0 <= i < |slots| :: Holds(slots[i], table[i])
    ensures out == SnapshotsBelow(table, |table|)
  {
    out := [];
    var i := 0;
    while i < |slots|
      invariant 0 <= i <= |slots|
      invariant out == SnapshotsBelow(table, i)
    {
      var entry := EntryFor(slots[i], i, table[i]);
      out := out + entry;
      i := i + 1;
    }
  }

  method BookCount<B>(slots: seq<Option<B>>) returns (n: nat)
    ensures n == |set i | 0 <= i < |slots| && slots[i].Some?|
  {
    n := 0;
    var i := 0;
    while i < |slots|
      invariant 0 <= i <= |slots|
      invariant n == |set j | 0 <= j < i && slots[j].Some?|
    {
      ghost var before := set j | 0 <= j < i && slots[j].Some?;
      assert (set j | 0 <= j < i + 1 && slots[j].Some?) == before + (if slots[i].Some? then {i} else {});
      if slots[i].Some? {
        n := n + 1;
      }
      i := i + 1;
    }
  }

  /** The entry of a built book comes after those of the built books below it. */
  lemma {:induction false} EntryOf(table: seq<Option<Orders>>, l: nat, n: nat)
    requires l < n <= |table| && table[l].Some?
    ensures var out, at := SnapshotsBelow(table, n), |SnapshotsBelow(table, l)|;
            at < |out| && out[at] == LocateSnapshot(l, Live(table[l].value))
    decreases n
  {
    if l < n - 1 {
      EntryOf(table, l, n - 1);
    }
  }

  ghost predicate HasEntry(out: seq<LocateSnapshot>, l: nat) {
    exists i | 0 <= i < |out| :: out[i].locate == l
  }

  ghost predicate Ascending(out: seq<LocateSnapshot>) {
    forall i, j | 0 <= i < j < |out| :: out[i].locate < out[j].locate
  }

  ghost predicate IsLive(table: seq<Option<Orders>>, n: nat, e: LocateSnapshot)
    requires n <= |table|
  {
    e.locate < n && table[e.locate].Some? && e.view == Live(table[e.locate].value)
  }

  lemma {:induction false} EntriesAscend(table: seq<Option<Orders>>, n: nat)
    requires n <= |table|
    ensures Ascending(SnapshotsBelow(table, n))
    ensures forall i | 0 <= i < |SnapshotsBelow(table, n)| :: IsLive(table, n, SnapshotsBelow(table, n)[i])
    decreases n
  {
    if n > 0 {
      EntriesAscend(table, n - 1);
      var before, out := SnapshotsBelow(table, n - 1), SnapshotsBelow(table, n);
      forall i | 0 <= i < |out|
        ensures IsLive(table, n, out[i]) && (i < |before| ==> out[i].locate < n - 1)
      {
        if i < |before| {
          assert out[i] == before[i] && IsLive(table, n - 1, before[i]);
        }
      }
      forall i, j | 0 <= i < j < |out|
        ensures out[i].locate < out[j].locate
      {
        if j < |before| {
          assert out[i] == before[i] && out[j] == before[j];
        }
      }
    }
  }

  /** Locates strictly increase, every entry is a built book with its live view, and every
      built book has an entry. */
  lemma EachBookOnceInOrder(table: seq<Option<Orders>>)
    ensures var out := SnapshotsBelow(table, |table|);
            && Ascending(out)
            && (forall i | 0 <= i < |out| :: IsLive(table, |table|, out[i]))
            && (forall l | 0 <= l < |table| && table[l].Some? :: HasEntry(out, l))
  {
    EntriesAscend(table, |table|);
    forall l | 0 <= l < |table| && table[l].Some?
      ensures HasEntry(SnapshotsBelow(table, |table|), l)
    {
      EntryOf(table, l, |table|);
    }
  }

  class SnapshotStore {
    var data: seq<LocateSnapshot>
    var version: nat
    var unknownRefs: nat

    constructor ()
      ensures data == [] && version == 0 && unknownRefs == 0
    {
      data, version, unknownRefs := [], 0, 0;
    }

    method Publish(next: seq<LocateSnapshot>, unknown: nat)
      modifies this
      ensures data == next && unknownRefs == unknown && version == old(version) + 1
    {
      data, unknownRefs, version := next, unknown, version + 1;
    }

    /** The first entry of a locate, or none when there is none. */
    method Find(locate: nat) returns (r: Option<LocateSnapshot>)
      ensures r.Some? ==> exists i | 0 <= i < |data| ::
                && data[i] == r.value && r.value.locate == locate
                && forall j | 0 <= j < i :: data[j].locate != locate
      ensures r.None? <==> forall i | 0 <= i < |data| :: data[i].locate != locate
    {
      var i := 0;
      while i < |data|
        invariant 0 <= i <= |data|
        invariant forall j | 0 <= j < i :: data[j].locate != locate
      {
        if data[i].locate == locate {
          return Some(data[i]);
        }
        i := i + 1;
      }
      r := None;
    }
  }

  /** Snapshot, publish, look up: a locate is found exactly when its book is built, and
      what is found is the live view of that book. */
  method PublishAndFind(slots: seq<Option<Book>>, ghost table: seq<Option<Orders>>, unknown: nat, locate: nat)
    returns (r: Option<View>)
    requires |table| == |slots| && forall i | 0 <= i < |slots| :: Holds(slots[i], table[i])
    ensures r == if locate < |table| && table[locate].Some?
                 then Some(Observe(table[locate].value, Bids, Asks)) else None
  {
    var store := new SnapshotStore();
    var snap := SnapshotBookTable(slots, table);
    EachBookOnceInOrder(table);
    store.Publish(snap, unknown);
    var found := store.Find(locate);
    assert found.None? ==> !HasEntry(snap, locate);
    r := if found.Some? then Some(found.value.view) else None;
  }
}

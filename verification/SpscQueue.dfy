/** The ring buffer as one thread sees it: slots and masked indices updated in place. */
module SpscQueues {
  import opened Machine
  import opened Arith
  import opened Bits

  /** The ring's contents, oldest first. */
  ghost function Queued<T>(buf: seq<T>, head: nat, tail: nat): seq<T>
    requires head < |buf| && tail < |buf|
  {
    if head <= tail then buf[head..tail] else buf[head..] + buf[..tail]
  }

  function Next(i: nat, capacity: nat): nat
    requires capacity > 0
  {
    BitAnd(i + 1, capacity - 1)
  }

  lemma NextIsModular(i: nat, bits: nat)
    ensures Pow2(bits) > 0 && Next(i, Pow2(bits)) == (i + 1) % Pow2(bits)
  {
    MaskIsRemainder(i + 1, bits);
  }

  lemma NextIndex(i: nat, bits: nat)
    requires i < Pow2(bits)
    ensures Next(i, Pow2(bits)) == if i + 1 == Pow2(bits) then 0 else i + 1
  {
    NextIsModular(i, bits);
    if i + 1 < Pow2(bits) {
      SmallMod(i + 1, Pow2(bits));
    } else {
      QuotientUnique(i + 1, Pow2(bits), 1, 0);
    }
  }

  /** `(tail - head) & kMask` over 64-bit words is the number of queued items. */
  lemma MaskedSize<T>(buf: seq<T>, head: nat, tail: nat, bits: nat)
    requires |buf| == Pow2(bits) && bits <= 64 && head < |buf| && tail < |buf|
    ensures BitAnd((tail - head) % TWO_64, |buf| - 1) == |Queued(buf, head, tail)|
  {
    TwoTo64();
    MaskIsRemainder((tail - head) % TWO_64, bits);
    WrappedDifference(tail - head, bits);
    QuotientUnique(tail - head, |buf|, if head <= tail then 0 else -1, |Queued(buf, head, tail)|);
  }

  lemma TwoTo64()
    ensures Pow2(64) == TWO_64
  {
    assert Pow2(8) == 256 by {
      assert Pow2(4) == 2 * Pow2(3) && Pow2(8) == 2 * Pow2(7) && Pow2(6) == 2 * Pow2(5);
    }
    Pow2Splits(8, 8);
    Pow2Splits(16, 16);
    Pow2Splits(32, 32);
  }

  class SpscQueue<T(0)> {
    const capacity: nat
    ghost const bits: nat
    const buf: array<T>
    var head: nat
    var tail: nat

    ghost predicate Valid()
      reads this
    {
      capacity == Pow2(bits) == buf.Length && bits <= 64 && head < capacity && tail < capacity
    }

    ghost function Contents(): seq<T>
      requires Valid()
      reads this, buf
    {
      Queued(buf[..], head, tail)
    }

    /** The capacity passes the compile-time check, being a power of two. */
    constructor (capacity: nat, ghost bits: nat)
      requires capacity == Pow2(bits) && bits <= 64
      ensures Valid() && Contents() == [] && this.capacity == capacity && fresh(buf)
    {
      Pow2Positive(bits);
      this.capacity, this.bits := capacity, bits;
      buf := new T[capacity];
      head, tail := 0, 0;
    }

    /** Refuses exactly when capacity-1 items are queued; never touches an unread slot. */
    method Push(v: T) returns (ok: bool)
      requires Valid()
      modifies this`tail, buf
      ensures Valid()
      ensures ok <==> |old(Contents())| < capacity - 1
      ensures Contents() == if ok then old(Contents()) + [v] else old(Contents())
      ensures !ok ==> buf[..] == old(buf[..])
    {
      NextIndex(tail, bits);
      var next := Next(tail, capacity);
      if next == head {
        return false;
      }
      buf[tail] := v;
      tail := next;
      ok := true;
    }

    method Pop() returns (ok: bool, out: Option<T>)
      requires Valid()
      modifies this`head
      ensures Valid()
      ensures ok <==> old(Contents()) != []
      ensures ok ==> out.Some? && old(Contents()) == [out.value] + Contents()
      ensures !ok ==> out == None && Contents() == []
    {
      if head == tail {
        return false, None;
      }
      NextIndex(head, bits);
      out := Some(buf[head]);
      head := Next(head, capacity);
      ok := true;
    }

    method Size() returns (n: nat)
      requires Valid()
      ensures n == |Contents()| <= capacity - 1
    {
      MaskedSize(buf[..], head, tail, bits);
      n := BitAnd((tail - head) % TWO_64, capacity - 1);
    }
  }
}

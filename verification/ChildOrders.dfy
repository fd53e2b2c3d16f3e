/** Child orders and the fixed-capacity queue strategies push them into. */
module ChildOrders {
  import opened Machine
  import opened BookSpec

  const MAX_CHILD_ORDERS: nat := 512

  datatype OrderType = Limit | Market

  datatype ChildOrder = ChildOrder(ts: u64, side: Side, kind: OrderType, price: u32, shares: u32)

  function TotalShares(os: seq<ChildOrder>): nat {
    if os == [] then 0 else TotalShares(os[..|os| - 1]) + os[|os| - 1].shares
  }

  lemma TotalOfOneMore(os: seq<ChildOrder>, o: ChildOrder)
    ensures TotalShares(os + [o]) == TotalShares(os) + o.shares
  {
    assert (os + [o])[..|os|] == os;
  }

  class ChildOrderQueue {
    const buf: array<ChildOrder>
    var size: nat

    ghost predicate Valid()
      reads this
    {
      buf.Length == MAX_CHILD_ORDERS && size <= MAX_CHILD_ORDERS
    }

    ghost function Items(): seq<ChildOrder>
      requires Valid()
      reads this, buf
    {
      buf[..size]
    }

    constructor ()
      ensures Valid() && Items() == [] && fresh(buf)
    {
      buf := new ChildOrder[MAX_CHILD_ORDERS](_ => ChildOrder(0, BUY, Limit, 0, 0));
      size := 0;
    }

    /** Refuses, and changes nothing, once full. */
    method Push(o: ChildOrder) returns (ok: bool)
      requires Valid()
      modifies this`size, buf
      ensures Valid() && ok == (|old(Items())| < 512)
      ensures Items() == if ok then old(Items()) + [o] else old(Items())
    {
      if size >= MAX_CHILD_ORDERS {
        return false;
      }
      buf[size] := o;
      size := size + 1;
      ok := true;
    }

    method Clear()
      requires Valid()
      modifies this`size
      ensures Valid() && Items() == []
    {
      size := 0;
    }
  }
}

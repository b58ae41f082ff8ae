/** Orders and the intrusive doubly linked list of one price level. */
module Orders {
  import opened Basics

  datatype Side = Buy | Sell

  class Order {
    const id: U64
    const instrument: U32
    const side: Side
    const price: U64
    const qty: U32
    var remaining: U32
    var next: Order?
    var prev: Order?

    constructor (id: U64, instrument: U32, side: Side, price: U64, qty: U32)
      ensures this.id == id && this.instrument == instrument && this.side == side
      ensures this.price == price && this.qty == qty && remaining == qty
      ensures next == null && prev == null
    {
      this.id, this.instrument, this.side, this.price := id, instrument, side, price;
      this.qty, remaining := qty, qty;
      next, prev := null, null;
    }

    /** The copy that the order map stores. */
    constructor CopyOf(order: Order)
      ensures id == order.id && instrument == order.instrument && side == order.side
      ensures price == order.price && qty == order.qty && remaining == order.remaining
    {
      id, instrument, side, price := order.id, order.instrument, order.side, order.price;
      qty, remaining := order.qty, order.remaining;
      next, prev := order.next, order.prev;
    }
  }
}

module PriceLevels {
  import opened Basics
  import opened Lists
  import opened Orders

  /** The links of the orders spell out the list: forwards from head, backwards from tail. */
  ghost predicate Linked(list: seq<Order>, head: Order?, tail: Order?)
    reads (set o | o in list)`next, (set o | o in list)`prev
  {
    && Distinct(list)
    && head == At(list, 0)
    && tail == At(list, |list| - 1)
    && (forall i :: 0 <= i < |list| ==> LinkedAt(list, i))
  }

  ghost predicate LinkedAt(list: seq<Order>, i: nat)
    requires i < |list|
    reads (set o | o in list)`next, (set o | o in list)`prev
  {
    list[i].next == At(list, i + 1) && list[i].prev == At(list, i - 1)
  }

  /** The element at position i, or null outside the list. */
  ghost function At(list: seq<Order>, i: int): Order? {
    if 0 <= i < |list| then list[i] else null
  }

  ghost function TotalRemaining(list: seq<Order>): nat
    reads (set o | o in list)`remaining
  {
    if list == [] then 0 else TotalRemaining(list[..|list|-1]) + list[|list|-1].remaining
  }

  class PriceLevel {
    const price: U64
    var head: Order?
    var tail: Order?
    ghost var list: seq<Order>

    constructor (price: U64)
      ensures this.price == price && list == [] && Valid()
    {
      this.price := price;
      head, tail, list := null, null, [];
    }

    ghost predicate Valid()
      reads this, (set o | o in list)`next, (set o | o in list)`prev
    {
      Linked(list, head, tail)
    }

    predicate IsEmpty()
      reads this`head
    {
      head == null
    }

    /** Append at the tail. */
    method AddOrder(order: Order)
      requires Valid() && order !in list
      modifies this, (set o | o in list)`next, order`next, order`prev
      ensures Valid() && list == old(list) + [order]
    {
      if head == null {
        head, tail := order, order;
        order.next := null;
        order.prev := null;
      } else {
        tail.next := order;
        order.prev := tail;
        order.next := null;
        tail := order;
      }
      ghost var was := list;
      list := was + [order];
      forall i | 0 <= i < |list|
        ensures LinkedAt(list, i)
      {
        if i < |was| {
          assert old(LinkedAt(was, i));
          if i < |was| - 1 {
            assert Differ(was, i, |was| - 1);
          }
        }
      }
      AppendDistinct(was, order);
    }

    /** Unlink a head, middle, tail or sole order; the others keep their relative order. */
    method RemoveOrder(order: Order, ghost k: nat)
      requires Valid() && k < |list| && list[k] == order
      modifies this, (set o | o in list)`next, (set o | o in list)`prev
      ensures Valid() && list == DropAt(old(list), k)
    {
      ghost var was := list;
      assert LinkedAt(was, k);
      assert k > 0 ==> LinkedAt(was, k - 1);
      if order.prev != null {
        order.prev.next := order.next;
      } else {
        head := order.next;
      }
      if order.next != null {
        order.next.prev := order.prev;
      } else {
        tail := order.prev;
      }
      list := DropAt(was, k);
      forall i | 0 <= i < |list|
        ensures LinkedAt(list, i)
      {
        var j := if i < k then i else i + 1;
        assert list[i] == was[j] && old(LinkedAt(was, j));
        DistinctAt(was, j, k - 1);
        DistinctAt(was, j, k + 1);
      }
      DropDistinct(was, k);
    }

    /** The sum of the remaining quantities, in 32-bit arithmetic. */
    method GetTotalQty() returns (total: U32)
      requires Valid()
      ensures total == TotalRemaining(list) % TWO_32
    {
      total := 0;
      var order := head;
      ghost var i := 0;
      while order != null
        invariant 0 <= i <= |list|
        invariant order == At(list, i)
        invariant total == TotalRemaining(list[..i]) % TWO_32
        decreases |list| - i
      {
        assert list[..i+1][..i] == list[..i];
        assert LinkedAt(list, i);
        assert list[..i+1] != [] && TotalRemaining(list[..i+1]) == TotalRemaining(list[..i]) + order.remaining;
        total := (total + order.remaining) % TWO_32;
        order := order.next;
        i := i + 1;
      }
      assert list[..i] == list;
    }
  }
}

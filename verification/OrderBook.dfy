/** The indexed order book: two sorted vectors of linked price levels and the order map, updated
    together, against the book as a value. */
module OrderBooks {
  import opened Basics
  import opened Lists
  import opened Orders
  import opened PriceLevels
  import opened BookModel
  import opened BookSides
  import opened SlotTables
  import opened FlatOrderMaps

  ghost predicate Indexed(m: map<Key, Order>, o: Order) {
    o.id in m && m[o.id] == o
  }

  ghost predicate IndexedBack(m: map<Key, Order>, live: seq<Order>, id: Key)
    requires id in m
  {
    m[id] in live && m[id].id == id
  }

  /** The order map holds exactly the live orders, each under its own id. */
  ghost predicate IndexOk(m: map<Key, Order>, live: seq<Order>) {
    && Distinct(live)
    && |m| == |live|
    && (forall o :: o in live ==> Indexed(m, o))
    && (forall id :: id in m ==> IndexedBack(m, live, id))
  }

  lemma IndexFinds(m: map<Key, Order>, live: seq<Order>, id: U64)
    requires IndexOk(m, live)
    ensures |ViewOf(live)| == |live|
    ensures id in m <==> Find(ViewOf(live), id) < |live|
    ensures id in m ==> m[id] == live[Find(ViewOf(live), id)]
  {
    ViewEntries(live);
    var k := Find(ViewOf(live), id);
    if k < |live| {
      assert Indexed(m, live[k]);
    } else if id in m {
      assert false;
    }
  }

  lemma IndexAdd(m: map<Key, Order>, live: seq<Order>, o: Order)
    requires IndexOk(m, live) && o.id !in m
    ensures IndexOk(m[o.id := o], live + [o])
  {
    var m' := m[o.id := o];
    assert forall x :: x in live ==> Indexed(m, x);
    AppendDistinct(live, o);
    forall x | x in live + [o]
      ensures Indexed(m', x)
    {
      if x != o {
        assert Indexed(m, x);
      }
    }
    forall id | id in m'
      ensures IndexedBack(m', live + [o], id)
    {
      if id != o.id {
        assert IndexedBack(m, live, id);
      }
    }
  }

  lemma IndexDrop(m: map<Key, Order>, live: seq<Order>, k: nat)
    requires IndexOk(m, live) && k < |live|
    ensures IndexOk(m - {live[k].id}, DropAt(live, k))
  {
    var o, rest := live[k], DropAt(live, k);
    var m' := m - {o.id};
    DropDistinct(live, k);
    assert Indexed(m, o);
    assert |m'| == |m| - 1 by {
      assert m.Keys == m'.Keys + {o.id};
    }
    forall x | x in rest
      ensures Indexed(m', x)
    {
      assert Indexed(m, x);
    }
    forall id | id in m'
      ensures IndexedBack(m', rest, id)
    {
      assert IndexedBack(m, live, id);
      var i :| 0 <= i < |live| && live[i] == m[id];
      assert rest[if i < k then i else i - 1] == live[i];
    }
  }

  lemma ViewDrop(live: seq<Order>, k: nat)
    requires k < |live|
    ensures k < |ViewOf(live)| && ViewOf(DropAt(live, k)) == DropAt(ViewOf(live), k)
  {
    ViewEntries(live);
    ViewEntries(DropAt(live, k));
  }

  /** The best price of a side stands first in its level vector. */
  lemma FrontIsBest(levels: seq<PriceLevel>, side: Side, live: seq<Order>)
    requires SideValid(levels, side, live)
    ensures IsBest(ViewOf(live), side, if levels == [] then None else Some(levels[0].price))
  {
    ViewEntries(live);
    var view := ViewOf(live);
    if levels == [] {
      forall i | 0 <= i < |view|
        ensures view[i].side != side
      {
        assert live[i] !in SideOrders(live, side);
      }
    } else {
      var p := levels[0].price;
      assert LevelOk(levels, side, live, 0);
      OnLevelOnly(live, side, p);
      var o := OnLevel(live, side, p)[0];
      assert o in OnLevel(live, side, p);
      var k :| 0 <= k < |live| && live[k] == o;
      assert AtPrice(view[k], side, p);
      forall i | 0 <= i < |view| && view[i].side == side
        ensures !Better(side, view[i].price, p)
      {
        assert live[i] in SideOrders(live, side);
        var j :| 0 <= j < |levels| && levels[j].price == live[i].price;
        if j > 0 {
          assert Ranked(levels, side, 0, j);
        }
      }
    }
  }

  class OrderBook {
    const instrument: U32
    const orders: FlatOrderMap<Order>
    var bids: seq<PriceLevel>
    var asks: seq<PriceLevel>
    ghost var live: seq<Order>

    constructor (instrument: U32, requested: U64, mix: Hash, rule: ShiftRule)
      requires requested <= 0x8000_0000_0000_0000
      ensures Valid() && View() == []
      ensures orders.rule == rule && orders.slots.Length >= requested && fresh(orders) && fresh(orders.slots)
    {
      this.instrument := instrument;
      orders := new FlatOrderMap<Order>(requested, mix, rule);
      bids, asks, live := [], [], [];
    }

    ghost predicate Valid()
      reads this, orders, orders.slots, bids, asks, (set o | o in live)`next, (set o | o in live)`prev
    {
      && orders.Valid()
      && IndexOk(orders.Contents(), live)
      && SidesValid()
    }

    ghost predicate SidesValid()
      reads this, bids, asks, (set o | o in live)`next, (set o | o in live)`prev
    {
      && SideValid(bids, Buy, live)
      && SideValid(asks, Sell, live)
      && (forall i, j :: 0 <= i < |bids| && 0 <= j < |asks| ==> bids[i] != asks[j])
    }

    /** The book as a value. */
    ghost function View(): Book
      reads this, (set o | o in live)`remaining
    {
      ViewOf(live)
    }

    /** Erasing this id from the order map neither strands nor relocates another order. */
    ghost predicate Erasable(id: U64)
      requires orders.Valid()
      reads this, orders, orders.slots
    {
      orders.rule == AtLeast || orders.CleanAt(id)
    }

    /** The search for this id in the order map comes to an end. */
    ghost predicate CanFind(id: U64)
      reads this, orders, orders.slots
    {
      |live| < orders.slots.Length || id in orders.Contents()
    }

    method AddOrder(order: Order?) returns (ok: bool)
      requires Valid() && (order != null ==> CanFind(order.id))
      modifies this, orders`size, orders.slots, bids, asks, (set o | o in live)`next
      ensures Valid()
      ensures forall l :: (l in bids && l !in old(bids)) || (l in asks && l !in old(asks)) ==> fresh(l)
      ensures forall o :: o in live && o !in old(live) ==> fresh(o)
      ensures ok == (order != null && !Live(old(View()), order.id))
      ensures View() == if order == null then old(View()) else Apply(old(View()), Add(old(Record(order))))
      ensures ok ==> View() == old(View()) + [LiveOrder(order.id, order.side, order.price, old(order.remaining))]
      ensures ok ==> live != [] && live[|live|-1].instrument == order.instrument && live[|live|-1].qty == order.qty
      ensures !ok ==> View() == old(View())
    {
      ok := false;
      if order != null {
        IndexFinds(orders.Contents(), live, order.id);
        var found := Lookup(order.id);
        if found.None? {
          Accept(order);
          ok := true;
        }
      }
    }

    method Lookup(id: U64) returns (r: Option<Order>)
      requires Valid() && CanFind(id)
      ensures r == if id in orders.Contents() then Some(orders.Contents()[id]) else None
    {
      HasEmptyIffSpare(orders.slots[..]);
      r := orders.Find(id);
    }

    /** The accepting branch of add: store a copy in the order map, then queue it at its level. */
    method Accept(order: Order)
      requires Valid() && CanFind(order.id) && order.id !in orders.Contents()
      modifies this`bids, this`asks, this`live, orders`size, orders.slots, bids, asks, (set o | o in live)`next
      ensures Valid() == old(Valid()) && View() == old(View()) + [old(Record(order))]
      ensures live != [] && live[|live|-1].instrument == order.instrument && live[|live|-1].qty == order.qty
      ensures forall l :: (l in bids && l !in old(bids)) || (l in asks && l !in old(asks)) ==> fresh(l)
      ensures forall o :: o in live && o !in old(live) ==> fresh(o)
    {
      hide SidesValid, IndexOk, FlatOrderMap.Valid, View;
      var stored := Store(order);
      Queue(stored);
    }

    /** Copy an order into the order map. */
    method Store(order: Order) returns (stored: Order)
      requires Valid() && CanFind(order.id) && order.id !in orders.Contents()
      modifies orders`size, orders.slots
      ensures fresh(stored) && Record(stored) == old(Record(order))
      ensures stored.instrument == order.instrument && stored.qty == order.qty
      ensures orders.Valid() == old(orders.Valid()) && SidesValid() == old(SidesValid()) && View() == old(View())
      ensures IndexOk(orders.Contents(), live + [stored]) == old(IndexOk(orders.Contents(), live))
    {
      HasEmptyIffSpare(orders.slots[..]);
      stored := new Order.CopyOf(order);
      IndexAdd(orders.Contents(), live, stored);
      Put(stored);
    }

    method Put(stored: Order)
      requires orders.Valid() && HasEmpty(orders.slots[..])
      modifies orders`size, orders.slots
      ensures orders.Valid() == old(orders.Valid()) && SidesValid() == old(SidesValid()) && View() == old(View())
      ensures orders.Contents() == old(orders.Contents())[stored.id := stored]
    {
      var idx := orders.Insert(stored.id, stored);
    }

    /** Queue a stored order at its level, as the last of the live orders. */
    method Queue(stored: Order)
      requires SidesValid() && stored !in live
      modifies this`bids, this`asks, this`live, bids, asks, (set o | o in live)`next, stored`next, stored`prev
      ensures SidesValid() == old(SidesValid()) && live == old(live) + [stored]
      ensures View() == old(View()) + [Record(stored)]
      ensures orders.Valid() == old(orders.Valid()) && orders.Contents() == old(orders.Contents())
      ensures forall l :: (l in bids && l !in old(bids)) || (l in asks && l !in old(asks)) ==> fresh(l)
    {
      Link(stored);
      ViewExtends(old(live), stored);
      assert ViewOf(old(live)) == old(View());
    }

    /** Link a stored order into its level's list, making the level if need be. */
    method Link(stored: Order)
      requires SidesValid() && stored !in live
      modifies this`bids, this`asks, this`live, bids, asks, (set o | o in live)`next, stored`next, stored`prev
      ensures SidesValid() == old(SidesValid()) && live == old(live) + [stored]
      ensures forall l :: (l in bids && l !in old(bids)) || (l in asks && l !in old(asks)) ==> fresh(l)
    {
      if stored.side == Buy {
        bids := AddToSide(bids, Buy, live, stored);
        assert SideValid(asks, Sell, live) == old(SideValid(asks, Sell, live));
        OtherSideAppend(asks, Sell, live, stored);
      } else {
        asks := AddToSide(asks, Sell, live, stored);
        assert SideValid(bids, Buy, live) == old(SideValid(bids, Buy, live));
        OtherSideAppend(bids, Buy, live, stored);
      }
      forall i, j | 0 <= i < |bids| && 0 <= j < |asks|
        ensures bids[i] != asks[j]
      {
        assert bids[i] in bids && asks[j] in asks;
      }
      live := live + [stored];
    }

    /** Remove an order from its level, dropping the level when that empties it, then erase it from
        the order map. */
    method CancelOrder(id: U64) returns (ok: bool)
      requires Valid() && CanFind(id) && Erasable(id)
      modifies this, orders`size, orders.slots, bids, asks, (set o | o in live)`next, (set o | o in live)`prev
      ensures Valid()
      ensures ok == Live(old(View()), id)
      ensures View() == Apply(old(View()), Cancel(id))
      ensures var b, k := old(View()), Find(old(View()), id); View() == if ok then DropAt(b, k) else b
      ensures forall o :: o in live ==> o in old(live)
      ensures forall l :: (l in bids ==> l in old(bids)) && (l in asks ==> l in old(asks))
    {
      IndexFinds(orders.Contents(), live, id);
      var found := Lookup(id);
      ok := found.Some?;
      if found.Some? {
        Discard(found.value, Find(View(), id));
      }
    }

    method Discard(order: Order, ghost k: nat)
      requires Valid() && k < |live| && live[k] == order && Erasable(order.id)
      modifies this`bids, this`asks, this`live, orders`size, orders.slots, bids, asks
      modifies (set o | o in live)`next, (set o | o in live)`prev
      ensures Valid() == old(Valid())
      ensures |View()| == |old(View())| - 1 && k < |old(View())| && View() == DropAt(old(View()), k)
      ensures live == DropAt(old(live), k)
      ensures forall l :: (l in bids ==> l in old(bids)) && (l in asks ==> l in old(asks))
    {
      IndexDrop(orders.Contents(), live, k);
      assert Indexed(orders.Contents(), order);
      Unqueue(order, k);
      Unindex(order.id);
    }

    /** Unlink an order from its level's list, dropping the level when that empties it. */
    method Unqueue(order: Order, ghost k: nat)
      requires SidesValid() && k < |live| && live[k] == order && orders.Valid()
      modifies this`bids, this`asks, this`live, bids, asks, (set o | o in live)`next, (set o | o in live)`prev
      ensures SidesValid() == old(SidesValid()) && live == DropAt(old(live), k)
      ensures k < |old(View())| && View() == DropAt(old(View()), k)
      ensures orders.Valid() == old(orders.Valid()) && orders.Contents() == old(orders.Contents())
      ensures Erasable(order.id) == old(Erasable(order.id))
      ensures forall l :: (l in bids ==> l in old(bids)) && (l in asks ==> l in old(asks))
    {
      ViewDrop(live, k);
      Unlink(order, k);
      assert ViewOf(live) == old(ViewOf(DropAt(live, k)));
    }

    method Unlink(order: Order, ghost k: nat)
      requires SidesValid() && k < |live| && live[k] == order
      modifies this`bids, this`asks, this`live, bids, asks, (set o | o in live)`next, (set o | o in live)`prev
      ensures SidesValid() == old(SidesValid()) && live == DropAt(old(live), k)
      ensures forall l :: (l in bids ==> l in old(bids)) && (l in asks ==> l in old(asks))
    {
      if order.side == Buy {
        bids := RemoveFromSide(bids, Buy, live, order, k);
        assert SideValid(asks, Sell, live) == old(SideValid(asks, Sell, live));
        OtherSideDrop(asks, Sell, live, k);
      } else {
        asks := RemoveFromSide(asks, Sell, live, order, k);
        assert SideValid(bids, Buy, live) == old(SideValid(bids, Buy, live));
        OtherSideDrop(bids, Buy, live, k);
      }
      forall i, j | 0 <= i < |bids| && 0 <= j < |asks|
        ensures bids[i] != asks[j]
      {
        assert bids[i] in bids && asks[j] in asks;
      }
      live := DropAt(live, k);
    }

    method Unindex(id: U64)
      requires orders.Valid() && id in orders.Contents() && Erasable(id)
      modifies orders`size, orders.slots
      ensures orders.Valid() == old(orders.Valid()) && SidesValid() == old(SidesValid()) && View() == old(View())
      ensures orders.Contents() == old(orders.Contents()) - {id}
    {
      var erased := orders.Erase(id);
    }

    /** Execute up to `qty` shares of an order; a filled order leaves the book. Only a fill erases
        from the order map. */
    method ExecuteOrder(id: U64, qty: U32) returns (executed: U32)
      requires Valid() && CanFind(id)
      requires Live(View(), id) && 0 < View()[Find(View(), id)].remaining <= qty ==> Erasable(id)
      modifies this, orders`size, orders.slots, bids, asks
      modifies (set o | o in live)`next, (set o | o in live)`prev, (set o | o in live)`remaining
      ensures Valid()
      ensures executed == Executed(old(View()), id, qty)
      ensures View() == Apply(old(View()), Execute(id, qty))
      ensures var b, k := old(View()), Find(old(View()), id);
              if k == |b| then executed == 0 && View() == b
              else
                var left := b[k].remaining;
                && executed == (if qty < left then qty else left)
                && View() == if qty < left then b[k := b[k].(remaining := left - qty)]
                             else if left > 0 then DropAt(b, k) else b
      ensures forall o :: o in live ==> o in old(live)
      ensures forall l :: (l in bids ==> l in old(bids)) && (l in asks ==> l in old(asks))
    {
      hide SidesValid, FlatOrderMap.Valid, Find, Erasable;
      IndexFinds(orders.Contents(), live, id);
      var found := Lookup(id);
      executed := 0;
      if found.Some? {
        EntryIs(Find(View(), id));
        if found.value.remaining != 0 {
          executed := Take(found.value, Find(View(), id), qty);
        }
      }
    }

    /** The executing branch: lower the remaining quantity, and cancel the order once it is filled. */
    method Take(order: Order, ghost k: nat, qty: U32) returns (executed: U32)
      requires Valid() && k < |live| && live[k] == order && order.remaining > 0
      requires k == Find(View(), order.id) && (qty >= order.remaining ==> Erasable(order.id))
      modifies this, orders`size, orders.slots, bids, asks
      modifies (set o | o in live)`next, (set o | o in live)`prev, (set o | o in live)`remaining
      ensures Valid() == old(Valid())
      ensures k < |old(View())| && executed == Taken(old(View()), k, qty) && View() == AfterTaking(old(View()), k, qty)
      ensures forall o :: o in live ==> o in old(live)
      ensures forall l :: (l in bids ==> l in old(bids)) && (l in asks ==> l in old(asks))
    {
      EntryIs(k);
      ghost var view := View();
      executed := if qty > order.remaining then order.remaining else qty;
      SetRemaining(order, k, order.remaining - executed);
      if order.remaining == 0 {
        CancelAfterWrite(view, order.id, 0);
        assert Indexed(orders.Contents(), order);
        var cancelled := CancelOrder(order.id);
      }
    }

    lemma EntryIs(k: nat)
      requires k < |live|
      ensures k < |View()| && View()[k] == Record(live[k])
    {
      ViewEntries(live);
    }

    method SetRemaining(order: Order, ghost k: nat, remaining: U32)
      requires Valid() && k < |live| && live[k] == order
      modifies order`remaining
      ensures order.remaining == remaining
      ensures Valid() == old(Valid()) && Erasable(order.id) == old(Erasable(order.id))
      ensures k < |old(View())| && View() == old(View())[k := old(View())[k].(remaining := remaining)]
    {
      WriteRemaining(live, order, k, remaining);
    }

    /** Bids strictly descend, asks strictly ascend, and no level is empty. */
    lemma LevelsInOrder()
      requires Valid()
      ensures forall i, j :: 0 <= i < j < |bids| ==> bids[i].price > bids[j].price
      ensures forall i, j :: 0 <= i < j < |asks| ==> asks[i].price < asks[j].price
      ensures forall i :: 0 <= i < |bids| ==> bids[i].list != []
      ensures forall i :: 0 <= i < |asks| ==> asks[i].list != []
    {
      SideInOrder(bids, Buy, live);
      SideInOrder(asks, Sell, live);
    }

    method BestBid() returns (r: Option<U64>)
      requires Valid()
      ensures IsBest(View(), Buy, r)
      ensures r == None <==> forall i :: 0 <= i < |View()| ==> View()[i].side == Sell
      ensures r.Some? ==> exists i :: 0 <= i < |View()| && View()[i].side == Buy && View()[i].price == r.value
      ensures r.Some? ==> forall i :: 0 <= i < |View()| && View()[i].side == Buy ==> View()[i].price <= r.value
    {
      FrontIsBest(bids, Buy, live);
      BestIsHighestBidLowestAsk(View(), Buy, if bids == [] then None else Some(bids[0].price));
      if bids == [] {
        return None;
      }
      return Some(bids[0].price);
    }

    method BestAsk() returns (r: Option<U64>)
      requires Valid()
      ensures IsBest(View(), Sell, r)
      ensures r == None <==> forall i :: 0 <= i < |View()| ==> View()[i].side == Buy
      ensures r.Some? ==> exists i :: 0 <= i < |View()| && View()[i].side == Sell && View()[i].price == r.value
      ensures r.Some? ==> forall i :: 0 <= i < |View()| && View()[i].side == Sell ==> View()[i].price >= r.value
    {
      FrontIsBest(asks, Sell, live);
      BestIsHighestBidLowestAsk(View(), Sell, if asks == [] then None else Some(asks[0].price));
      if asks == [] {
        return None;
      }
      return Some(asks[0].price);
    }

    method GetBidQtyAt(price: U64) returns (qty: U32)
      requires Valid()
      ensures qty == Quantity(Level(View(), Buy, price)) % TWO_32
    {
      qty := QtyAt(bids, Buy, live, price);
    }

    method GetAskQtyAt(price: U64) returns (qty: U32)
      requires Valid()
      ensures qty == Quantity(Level(View(), Sell, price)) % TWO_32
    {
      qty := QtyAt(asks, Sell, live, price);
    }

    lemma ViewSize()
      requires Valid()
      ensures |View()| == |live|
    {
      ViewEntries(live);
    }

    method OrderCount() returns (n: nat)
      requires Valid()
      ensures n == |View()|
    {
      ViewEntries(live);
      n := orders.size;
    }
  }
}

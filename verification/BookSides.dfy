/** One side of the book: its price levels, best price first, and the lists they hold. */
module BookSides {
  import opened Basics
  import opened Lists
  import opened Orders
  import opened PriceLevels
  import opened BookModel

  /** The part of an order that the abstract book keeps. */
  ghost function Record(o: Order): LiveOrder
    reads o`remaining
  {
    LiveOrder(o.id, o.side, o.price, o.remaining)
  }

  ghost function ViewOf(live: seq<Order>): Book
    reads (set o | o in live)`remaining
  {
    if live == [] then [] else ViewOf(live[..|live|-1]) + [Record(live[|live|-1])]
  }

  lemma {:induction false} ViewEntries(live: seq<Order>)
    ensures |ViewOf(live)| == |live|
    ensures forall i :: 0 <= i < |live| ==> ViewOf(live)[i] == Record(live[i])
  {
    if live != [] {
      ViewEntries(live[..|live|-1]);
    }
  }

  /** The orders of one level among the live orders, in arrival order. */
  ghost function OnLevel(live: seq<Order>, side: Side, price: U64): seq<Order> {
    if live == [] then []
    else
      var o := live[|live|-1];
      OnLevel(live[..|live|-1], side, price) + if o.side == side && o.price == price then [o] else []
  }

  lemma {:induction false} OnLevelOnly(live: seq<Order>, side: Side, price: U64)
    ensures forall o :: o in OnLevel(live, side, price) ==> o in live && o.side == side && o.price == price
  {
    if live != [] {
      OnLevelOnly(live[..|live|-1], side, price);
    }
  }

  lemma {:induction false} OnLevelConcat(a: seq<Order>, b: seq<Order>, side: Side, price: U64)
    ensures OnLevel(a + b, side, price) == OnLevel(a, side, price) + OnLevel(b, side, price)
  {
    if b == [] {
      assert a + b == a;
    } else {
      OnLevelConcat(a, b[..|b|-1], side, price);
      assert (a + b)[..|a + b| - 1] == a + b[..|b|-1];
    }
  }

  lemma OnLevelOne(o: Order, side: Side, price: U64)
    ensures OnLevel([o], side, price) == if o.side == side && o.price == price then [o] else []
  {
    assert [o][..0] == [];
  }

  lemma {:induction false} OnLevelHas(live: seq<Order>, o: Order)
    requires o in live
    ensures o in OnLevel(live, o.side, o.price)
  {
    if o != live[|live|-1] {
      assert live == live[..|live|-1] + [live[|live|-1]];
      OnLevelHas(live[..|live|-1], o);
    }
  }

  /** Where the order at position k stands in its level's list. */
  ghost function RankOf(live: seq<Order>, k: nat): nat
    requires k < |live|
  {
    |OnLevel(live[..k], live[k].side, live[k].price)|
  }

  lemma OnLevelSplit(live: seq<Order>, k: nat, side: Side, price: U64)
    requires k < |live|
    ensures OnLevel(DropAt(live, k), side, price) == OnLevel(live[..k], side, price) + OnLevel(live[k+1..], side, price)
    ensures OnLevel(live, side, price)
         == OnLevel(live[..k], side, price) + OnLevel([live[k]], side, price) + OnLevel(live[k+1..], side, price)
  {
    hide OnLevel;
    OnLevelConcat(live[..k], live[k+1..], side, price);
    OnLevelConcat(live[..k], [live[k]], side, price);
    OnLevelConcat(live[..k] + [live[k]], live[k+1..], side, price);
    assert live == live[..k] + [live[k]] + live[k+1..];
  }

  lemma OnLevelDrop(live: seq<Order>, k: nat)
    requires k < |live|
    ensures RankOf(live, k) < |OnLevel(live, live[k].side, live[k].price)|
    ensures OnLevel(live, live[k].side, live[k].price)[RankOf(live, k)] == live[k]
    ensures OnLevel(DropAt(live, k), live[k].side, live[k].price)
         == DropAt(OnLevel(live, live[k].side, live[k].price), RankOf(live, k))
  {
    var side, price := live[k].side, live[k].price;
    OnLevelSplit(live, k, side, price);
    OnLevelOne(live[k], side, price);
    DropMiddle(OnLevel(live[..k], side, price), live[k], OnLevel(live[k+1..], side, price));
  }

  lemma DropMiddle<T>(a: seq<T>, x: T, c: seq<T>)
    ensures (a + [x] + c)[|a|] == x && DropAt(a + [x] + c, |a|) == a + c
  {
  }

  lemma OnLevelDropOther(live: seq<Order>, k: nat, side: Side, price: U64)
    requires k < |live| && (live[k].side != side || live[k].price != price)
    ensures OnLevel(DropAt(live, k), side, price) == OnLevel(live, side, price)
  {
    OnLevelSplit(live, k, side, price);
    OnLevelOne(live[k], side, price);
    assert OnLevel(live[..k], side, price) + [] == OnLevel(live[..k], side, price);
  }

  lemma ViewExtends(list: seq<Order>, o: Order)
    ensures ViewOf(list + [o]) == ViewOf(list) + [Record(o)]
  {
    assert (list + [o])[..|list|] == list;
  }

  lemma {:induction false} LevelView(live: seq<Order>, side: Side, price: U64)
    ensures ViewOf(OnLevel(live, side, price)) == Level(ViewOf(live), side, price)
  {
    if live != [] {
      var rest, o := live[..|live|-1], live[|live|-1];
      LevelView(rest, side, price);
      ViewExtends(OnLevel(rest, side, price), o);
      ViewEntries(live);
      ViewEntries(rest);
      assert ViewOf(live)[..|live|-1] == ViewOf(rest);
      var list, queue := OnLevel(rest, side, price), Level(ViewOf(rest), side, price);
      assert list + [] == list && queue + [] == queue;
    }
  }

  lemma {:induction false} TotalIsQuantity(list: seq<Order>)
    ensures TotalRemaining(list) == Quantity(ViewOf(list))
  {
    if list != [] {
      var rest, o := list[..|list|-1], list[|list|-1];
      TotalIsQuantity(rest);
      QuantityConcat(ViewOf(rest), [Record(o)]);
      QuantityOne(Record(o));
    }
  }

  // ---------- the invariant of a side

  predicate Ranked(levels: seq<PriceLevel>, side: Side, i: nat, j: nat)
    requires i < |levels| && j < |levels|
  {
    Better(side, levels[i].price, levels[j].price)
  }

  ghost predicate Sorted(levels: seq<PriceLevel>, side: Side) {
    forall i, j :: 0 <= i < j < |levels| ==> Ranked(levels, side, i, j)
  }

  ghost function SideOrders(live: seq<Order>, side: Side): set<Order> {
    set o | o in live && o.side == side
  }

  ghost predicate LevelHolds(level: PriceLevel, list: seq<Order>)
    reads level, (set o | o in list)`next, (set o | o in list)`prev
  {
    level.list == list && Linked(list, level.head, level.tail)
  }

  ghost predicate HasPrice(levels: seq<PriceLevel>, price: U64) {
    exists i :: 0 <= i < |levels| && levels[i].price == price
  }

  ghost predicate LevelOk(levels: seq<PriceLevel>, side: Side, live: seq<Order>, i: nat)
    requires i < |levels|
    reads levels, (set o | o in live && o.side == side)`next, (set o | o in live && o.side == side)`prev
  {
    OnLevelOnly(live, side, levels[i].price);
    && LevelHolds(levels[i], OnLevel(live, side, levels[i].price))
    && OnLevel(live, side, levels[i].price) != []
  }

  /** Levels strictly ordered best first; each one's linked list is exactly its live orders in
      arrival order and is not empty; every live order of the side has a level. */
  ghost predicate SideValid(levels: seq<PriceLevel>, side: Side, live: seq<Order>)
    reads levels, (set o | o in live && o.side == side)`next, (set o | o in live && o.side == side)`prev
  {
    && Sorted(levels, side)
    && (forall i :: 0 <= i < |levels| ==> LevelOk(levels, side, live, i))
    && (forall o :: o in SideOrders(live, side) ==> HasPrice(levels, o.price))
  }

  lemma SortedDistinct(levels: seq<PriceLevel>, side: Side, i: nat, j: nat)
    requires Sorted(levels, side) && i < |levels| && j < |levels| && i != j
    ensures levels[i].price != levels[j].price
  {
    if i < j {
      assert Ranked(levels, side, i, j);
    } else {
      assert Ranked(levels, side, j, i);
    }
  }

  // ---------- searching the level vector

  /** `std::lower_bound`: the first level that is not better than the price. */
  method LowerBound(levels: seq<PriceLevel>, side: Side, price: U64) returns (i: nat)
    requires Sorted(levels, side)
    ensures i <= |levels|
    ensures forall j :: 0 <= j < i ==> Better(side, levels[j].price, price)
    ensures forall j :: i <= j < |levels| ==> !Better(side, levels[j].price, price)
  {
    i := 0;
    var count := |levels|;
    while count > 0
      invariant 0 <= i <= i + count <= |levels|
      invariant forall j :: 0 <= j < i ==> Better(side, levels[j].price, price)
      invariant forall j :: i + count <= j < |levels| ==> !Better(side, levels[j].price, price)
    {
      var step := count / 2;
      var mid := i + step;
      if Better(side, levels[mid].price, price) {
        forall j | 0 <= j < mid
          ensures Better(side, levels[j].price, price)
        {
          assert Ranked(levels, side, j, mid);
        }
        i := mid + 1;
        count := count - step - 1;
      } else {
        forall j | mid < j < |levels|
          ensures !Better(side, levels[j].price, price)
        {
          assert Ranked(levels, side, mid, j);
        }
        count := step;
      }
    }
  }

  /** `std::find_if` by price. */
  method FindLevel(levels: seq<PriceLevel>, price: U64) returns (i: nat)
    ensures i <= |levels|
    ensures i < |levels| ==> levels[i].price == price
    ensures i < |levels| <==> HasPrice(levels, price)
  {
    i := 0;
    while i < |levels|
      invariant i <= |levels|
      invariant forall j :: 0 <= j < i ==> levels[j].price != price
    {
      if levels[i].price == price {
        return;
      }
      i := i + 1;
    }
  }

  /** The level of a price, made and inserted in order when there is none. */
  method FindOrInsert(levels: seq<PriceLevel>, side: Side, price: U64)
    returns (levels': seq<PriceLevel>, level: PriceLevel, ghost i: nat)
    requires Sorted(levels, side)
    ensures Sorted(levels', side) && i < |levels'| && levels'[i] == level && level.price == price
    ensures if HasPrice(levels, price) then levels' == levels
            else fresh(level) && level.Valid() && level.list == [] && DropAt(levels', i) == levels
  {
    var at := LowerBound(levels, side, price);
    i := at;
    PricedAt(levels, side, price, at);
    if at < |levels| && levels[at].price == price {
      return levels, levels[at], at;
    }
    level := new PriceLevel(price);
    levels' := levels[..at] + [level] + levels[at..];
    InsertKeepsSorted(levels, side, at, level);
  }

  lemma PricedAt(levels: seq<PriceLevel>, side: Side, price: U64, at: nat)
    requires Sorted(levels, side) && at <= |levels|
    requires forall j :: 0 <= j < at ==> Better(side, levels[j].price, price)
    requires at < |levels| ==> !Better(side, levels[at].price, price)
    ensures HasPrice(levels, price) <==> at < |levels| && levels[at].price == price
  {
    forall j | at < j < |levels|
      ensures levels[j].price != price
    {
      assert Ranked(levels, side, at, j);
    }
  }

  lemma InsertKeepsSorted(levels: seq<PriceLevel>, side: Side, at: nat, level: PriceLevel)
    requires Sorted(levels, side) && at <= |levels|
    requires forall j :: 0 <= j < at ==> Better(side, levels[j].price, level.price)
    requires forall j :: at <= j < |levels| ==> Better(side, level.price, levels[j].price)
    ensures var r := levels[..at] + [level] + levels[at..]; Sorted(r, side) && DropAt(r, at) == levels
  {
    var r := levels[..at] + [level] + levels[at..];
    assert DropAt(r, at) == levels;
    forall a, b | 0 <= a < b < |r|
      ensures Ranked(r, side, a, b)
    {
      if a != at && b != at {
        assert Ranked(levels, side, if a < at then a else a - 1, if b < at then b else b - 1);
      }
    }
  }

  // ---------- updating a side

  /** Levels other than the one updated keep their lists: a new order elsewhere does not concern them. */
  lemma OnLevelAppend(live: seq<Order>, o: Order, side: Side, price: U64)
    ensures OnLevel(live + [o], side, price)
         == OnLevel(live, side, price) + if o.side == side && o.price == price then [o] else []
  {
    OnLevelConcat(live, [o], side, price);
    OnLevelOne(o, side, price);
  }

  /** The other side of the book is not concerned by an order appended to this one. */
  lemma OtherSideAppend(levels: seq<PriceLevel>, side: Side, live: seq<Order>, o: Order)
    requires SideValid(levels, side, live) && o.side != side
    ensures SideValid(levels, side, live + [o])
  {
    forall i | 0 <= i < |levels|
      ensures LevelOk(levels, side, live + [o], i)
    {
      assert LevelOk(levels, side, live, i);
      OnLevelAppend(live, o, side, levels[i].price);
      assert OnLevel(live + [o], side, levels[i].price) == OnLevel(live, side, levels[i].price);
    }
    assert SideOrders(live + [o], side) == SideOrders(live, side);
  }

  lemma OtherSideDrop(levels: seq<PriceLevel>, side: Side, live: seq<Order>, k: nat)
    requires SideValid(levels, side, live) && k < |live| && live[k].side != side
    ensures SideValid(levels, side, DropAt(live, k))
  {
    forall i | 0 <= i < |levels|
      ensures LevelOk(levels, side, DropAt(live, k), i)
    {
      assert LevelOk(levels, side, live, i);
      OnLevelDropOther(live, k, side, levels[i].price);
    }
    assert forall o :: o in DropAt(live, k) ==> o in live;
  }

  method AddToSide(levels: seq<PriceLevel>, side: Side, ghost live: seq<Order>, stored: Order)
    returns (levels': seq<PriceLevel>)
    requires SideValid(levels, side, live) && stored.side == side && stored !in live
    modifies levels, (set o | o in live && o.side == side)`next, stored`next, stored`prev
    ensures SideValid(levels', side, live + [stored])
    ensures forall l :: l in levels' && l !in levels ==> fresh(l)
  {
    var level;
    ghost var at;
    levels', level, at := FindOrInsert(levels, side, stored.price);
    FoundLevels(levels, levels', side, live, stored.price, at);
    QueueAt(levels', side, live, stored, at, level);
  }

  method QueueAt(ghost levels: seq<PriceLevel>, side: Side, ghost live: seq<Order>, stored: Order,
                 ghost at: nat, level: PriceLevel)
    requires Sorted(levels, side) && stored.side == side && stored !in live
    requires at < |levels| && levels[at] == level && level.price == stored.price
    requires forall j :: 0 <= j < |levels| ==> LevelHolds(levels[j], OnLevel(live, side, levels[j].price))
    requires forall j :: 0 <= j < |levels| && j != at ==> OnLevel(live, side, levels[j].price) != []
    requires forall o :: o in SideOrders(live, side) ==> HasPrice(levels, o.price)
    modifies level, (set o | o in live && o.side == side)`next, stored`next, stored`prev
    ensures SideValid(levels, side, live + [stored])
  {
    hide OnLevel, SideOrders, HasPrice;
    OnLevelOnly(live, side, stored.price);
    ghost var list := level.list;
    level.AddOrder(stored);
    OnLevelAppend(live, stored, side, stored.price);
    forall j | 0 <= j < |levels|
      ensures LevelOk(levels, side, live + [stored], j)
    {
      var p := levels[j].price;
      if j != at {
        SortedDistinct(levels, side, j, at);
        OnLevelAppend(live, stored, side, p);
        assert OnLevel(live + [stored], side, p) == OnLevel(live, side, p);
        OnLevelOnly(live, side, p);
        assert forall o :: o in OnLevel(live, side, p) ==> o !in list && o != stored;
        assert LevelHolds(levels[j], OnLevel(live, side, p)) == old(LevelHolds(levels[j], OnLevel(live, side, p)));
      }
    }
    StillPriced(levels, side, live, stored, at);
  }

  lemma StillPriced(levels: seq<PriceLevel>, side: Side, live: seq<Order>, stored: Order, at: nat)
    requires at < |levels| && levels[at].price == stored.price
    requires forall o :: o in SideOrders(live, side) ==> HasPrice(levels, o.price)
    ensures forall o :: o in SideOrders(live + [stored], side) ==> HasPrice(levels, o.price)
  {
    forall o | o in SideOrders(live + [stored], side)
      ensures HasPrice(levels, o.price)
    {
      if o == stored {
        assert levels[at].price == o.price;
      } else {
        assert o in SideOrders(live, side);
      }
    }
  }

  /** The levels found or made for a price hold the live orders, the new one being still empty. */
  lemma FoundLevels(levels: seq<PriceLevel>, levels': seq<PriceLevel>, side: Side, live: seq<Order>, price: U64, at: nat)
    requires SideValid(levels, side, live)
    requires at < |levels'| && levels'[at].price == price
    requires if HasPrice(levels, price) then levels' == levels
             else levels'[at].Valid() && levels'[at].list == [] && DropAt(levels', at) == levels
    ensures forall j :: 0 <= j < |levels'| ==> LevelHolds(levels'[j], OnLevel(live, side, levels'[j].price))
    ensures forall j :: 0 <= j < |levels'| && j != at ==> OnLevel(live, side, levels'[j].price) != []
    ensures forall o :: o in SideOrders(live, side) ==> HasPrice(levels', o.price)
  {
    OnLevelOnly(live, side, price);
    if HasPrice(levels, price) {
      forall j | 0 <= j < |levels|
        ensures LevelHolds(levels[j], OnLevel(live, side, levels[j].price))
        ensures OnLevel(live, side, levels[j].price) != []
      {
        assert LevelOk(levels, side, live, j);
      }
    } else {
      OrdersHaveLevel(levels, side, live, price);
      forall j | 0 <= j < |levels'| && j != at
        ensures LevelHolds(levels'[j], OnLevel(live, side, levels'[j].price))
        ensures OnLevel(live, side, levels'[j].price) != []
      {
        var i := if j < at then j else j - 1;
        assert LevelOk(levels, side, live, i) && levels[i] == levels'[j];
      }
      forall o | o in SideOrders(live, side)
        ensures HasPrice(levels', o.price)
      {
        var i :| 0 <= i < |levels| && levels[i].price == o.price;
        assert levels'[if i < at then i else i + 1] == levels[i];
      }
    }
  }

  method RemoveFromSide(levels: seq<PriceLevel>, side: Side, ghost live: seq<Order>, order: Order, ghost k: nat)
    returns (levels': seq<PriceLevel>)
    requires SideValid(levels, side, live) && order.side == side && k < |live| && live[k] == order
    modifies levels, (set o | o in live && o.side == side)`next, (set o | o in live && o.side == side)`prev
    ensures SideValid(levels', side, DropAt(live, k))
    ensures forall l :: l in levels' ==> l in levels
  {
    var at := FindLevel(levels, order.price);
    assert order in SideOrders(live, side);
    levels' := levels;
    if at < |levels| {
      UnlinkAt(levels, side, live, order, k, at);
      assert forall o :: o in DropAt(live, k) ==> o in live;
      if levels[at].IsEmpty() {
        levels' := DropAt(levels, at);
        DroppedLevel(levels, side, DropAt(live, k), at);
      } else {
        assert LevelOk(levels, side, DropAt(live, k), at);
      }
    }
  }

  method UnlinkAt(levels: seq<PriceLevel>, side: Side, ghost live: seq<Order>, order: Order, ghost k: nat, at: nat)
    requires SideValid(levels, side, live) && order.side == side && k < |live| && live[k] == order
    requires at < |levels| && levels[at].price == order.price
    modifies levels[at], (set o | o in live && o.side == side)`next, (set o | o in live && o.side == side)`prev
    ensures forall j :: 0 <= j < |levels| && j != at ==> LevelOk(levels, side, DropAt(live, k), j)
    ensures LevelHolds(levels[at], OnLevel(DropAt(live, k), side, order.price))
  {
    var level := levels[at];
    assert LevelOk(levels, side, live, at);
    OnLevelDrop(live, k);
    OnLevelOnly(live, side, order.price);
    ghost var list := level.list;
    label Before:
    level.RemoveOrder(order, RankOf(live, k));
    forall j | 0 <= j < |levels| && j != at
      ensures LevelOk(levels, side, DropAt(live, k), j)
    {
      SortedDistinct(levels, side, j, at);
      OnLevelDropOther(live, k, side, levels[j].price);
      OnLevelOnly(live, side, levels[j].price);
      assert (forall o :: o in OnLevel(live, side, levels[j].price) ==> o !in list) && levels[j] != level;
      assert old@Before(LevelOk(levels, side, live, j));
      assert LevelHolds(levels[j], OnLevel(live, side, levels[j].price));
    }
  }

  lemma DroppedLevel(levels: seq<PriceLevel>, side: Side, live: seq<Order>, at: nat)
    requires Sorted(levels, side) && at < |levels|
    requires forall j :: 0 <= j < |levels| && j != at ==> LevelOk(levels, side, live, j)
    requires OnLevel(live, side, levels[at].price) == []
    requires forall o :: o in SideOrders(live, side) ==> HasPrice(levels, o.price)
    ensures SideValid(DropAt(levels, at), side, live)
  {
    var levels' := DropAt(levels, at);
    forall i, j | 0 <= i < j < |levels'|
      ensures Ranked(levels', side, i, j)
    {
      assert Ranked(levels, side, if i < at then i else i + 1, if j < at then j else j + 1);
    }
    forall i | 0 <= i < |levels'|
      ensures LevelOk(levels', side, live, i)
    {
      assert LevelOk(levels, side, live, if i < at then i else i + 1);
    }
    forall o | o in SideOrders(live, side)
      ensures HasPrice(levels', o.price)
    {
      OnLevelHas(live, o);
      var i :| 0 <= i < |levels| && levels[i].price == o.price;
      assert i != at;
      assert levels'[if i < at then i else i - 1] == levels[i];
    }
  }

  /** The quantity at a price: the sum over its level, or zero when there is no such level. */
  method QtyAt(levels: seq<PriceLevel>, side: Side, ghost live: seq<Order>, price: U64) returns (qty: U32)
    requires SideValid(levels, side, live)
    ensures qty == Quantity(Level(ViewOf(live), side, price)) % TWO_32
  {
    LevelTotal(live, side, price);
    var at := FindLevel(levels, price);
    if at < |levels| {
      assert LevelOk(levels, side, live, at);
      qty := levels[at].GetTotalQty();
    } else {
      OrdersHaveLevel(levels, side, live, price);
      assert TotalRemaining(OnLevel(live, side, price)) == 0;
      qty := 0;
    }
  }

  lemma LevelTotal(live: seq<Order>, side: Side, price: U64)
    ensures TotalRemaining(OnLevel(live, side, price)) == Quantity(Level(ViewOf(live), side, price))
  {
    var list := OnLevel(live, side, price);
    LevelView(live, side, price);
    TotalIsQuantity(list);
    assert Quantity(ViewOf(list)) == Quantity(Level(ViewOf(live), side, price));
  }

  method WriteRemaining(ghost live: seq<Order>, order: Order, ghost k: nat, remaining: U32)
    requires Distinct(live) && k < |live| && live[k] == order
    modifies order`remaining
    ensures order.remaining == remaining
    ensures k < |old(ViewOf(live))|
    ensures ViewOf(live) == old(ViewOf(live))[k := old(ViewOf(live))[k].(remaining := remaining)]
  {
    ghost var before := ViewOf(live);
    ViewEntries(live);
    order.remaining := remaining;
    ViewEntries(live);
    forall i | 0 <= i < |live| && i != k
      ensures ViewOf(live)[i] == before[i]
    {
      assert Differ(live, i, k);
      assert before[i] == old(Record(live[i]));
    }
  }

  lemma OrdersHaveLevel(levels: seq<PriceLevel>, side: Side, live: seq<Order>, price: U64)
    requires SideValid(levels, side, live)
    ensures OnLevel(live, side, price) != [] ==> HasPrice(levels, price)
  {
    OnLevelOnly(live, side, price);
    if OnLevel(live, side, price) != [] {
      var o := OnLevel(live, side, price)[0];
      assert o in OnLevel(live, side, price);
      assert o in SideOrders(live, side);
    }
  }

  /** Each live order stands exactly once in the lists of its side: in the one level with its price. */
  lemma OrderStandsOnce(levels: seq<PriceLevel>, side: Side, live: seq<Order>, o: Order)
    requires SideValid(levels, side, live) && o in SideOrders(live, side)
    ensures exists i :: 0 <= i < |levels| && levels[i].price == o.price && o in levels[i].list
                        && Distinct(levels[i].list)
                        && forall j :: 0 <= j < |levels| && j != i ==> o !in levels[j].list
  {
    OnLevelHas(live, o);
    var i :| 0 <= i < |levels| && levels[i].price == o.price;
    assert LevelOk(levels, side, live, i);
    forall j | 0 <= j < |levels| && j != i
      ensures o !in levels[j].list
    {
      SortedDistinct(levels, side, i, j);
      ListedAreLive(levels, side, live, j);
    }
  }

  lemma SideInOrder(levels: seq<PriceLevel>, side: Side, live: seq<Order>)
    requires SideValid(levels, side, live)
    ensures forall i, j :: 0 <= i < j < |levels| ==>
              if side == Buy then levels[i].price > levels[j].price else levels[i].price < levels[j].price
    ensures forall i :: 0 <= i < |levels| ==> levels[i].list != []
  {
    forall i, j | 0 <= i < j < |levels|
      ensures if side == Buy then levels[i].price > levels[j].price else levels[i].price < levels[j].price
    {
      assert Ranked(levels, side, i, j);
    }
    forall i | 0 <= i < |levels|
      ensures levels[i].list != []
    {
      assert LevelOk(levels, side, live, i);
    }
  }

  /** No other order stands in any list of the side. */
  lemma ListedAreLive(levels: seq<PriceLevel>, side: Side, live: seq<Order>, i: nat)
    requires SideValid(levels, side, live) && i < |levels|
    ensures forall o :: o in levels[i].list ==> o in live && o.side == side && o.price == levels[i].price
    ensures ViewOf(levels[i].list) == Level(ViewOf(live), side, levels[i].price)
  {
    assert LevelOk(levels, side, live, i);
    OnLevelOnly(live, side, levels[i].price);
    LevelView(live, side, levels[i].price);
  }
}

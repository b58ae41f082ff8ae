/** The order book as a value: the live orders in the order they arrived. Everything the indexed
    book answers is defined here on that sequence alone. */
module BookModel {
  import opened Basics
  import opened Lists
  import opened Orders

  datatype LiveOrder = LiveOrder(id: U64, side: Side, price: U64, remaining: U32)
  type Book = seq<LiveOrder>

  datatype Op =
    | Add(order: LiveOrder)
    | Cancel(id: U64)
    | Execute(id: U64, qty: U32)

  // ---------- one operation

  /** The position of an id, or the length of the book when the id is not live. */
  function Find(b: Book, id: U64): (k: nat)
    ensures k <= |b|
    ensures k < |b| ==> b[k].id == id
    ensures forall i :: 0 <= i < k ==> b[i].id != id
  {
    if b == [] then 0
    else
      var k := Find(b[..|b|-1], id);
      if k < |b| - 1 || b[|b|-1].id == id then k else |b|
  }

  predicate Live(b: Book, id: U64) {
    Find(b, id) < |b|
  }

  /** How many shares an execution takes from the order at position k. */
  function Taken(b: Book, k: nat, qty: U32): U32
    requires k < |b|
  {
    if qty > b[k].remaining then b[k].remaining else qty
  }

  /** The book after taking them: a filled order leaves it. */
  function AfterTaking(b: Book, k: nat, qty: U32): Book
    requires k < |b|
  {
    if Taken(b, k, qty) == b[k].remaining then DropAt(b, k)
    else b[k := b[k].(remaining := b[k].remaining - Taken(b, k, qty))]
  }

  function Executed(b: Book, id: U64, qty: U32): U32 {
    var k := Find(b, id);
    if k == |b| then 0 else Taken(b, k, qty)
  }

  function Apply(b: Book, op: Op): Book {
    match op
    case Add(order) => if Live(b, order.id) then b else b + [order]
    case Cancel(id) => if Live(b, id) then DropAt(b, Find(b, id)) else b
    case Execute(id, qty) =>
      var k := Find(b, id);
      if k == |b| || b[k].remaining == 0 then b else AfterTaking(b, k, qty)
  }

  /** The book after a run of operations from the empty book. */
  function Run(ops: seq<Op>): Book {
    if ops == [] then [] else Apply(Run(ops[..|ops|-1]), ops[|ops|-1])
  }

  ghost predicate UniqueIds(b: Book) {
    forall i, j :: 0 <= i < j < |b| ==> b[i].id != b[j].id
  }

  lemma ApplyKeepsUniqueIds(b: Book, op: Op)
    requires UniqueIds(b)
    ensures UniqueIds(Apply(b, op))
  {
  }

  lemma {:induction false} RunHasUniqueIds(ops: seq<Op>)
    ensures UniqueIds(Run(ops))
  {
    if ops != [] {
      RunHasUniqueIds(ops[..|ops|-1]);
      ApplyKeepsUniqueIds(Run(ops[..|ops|-1]), ops[|ops|-1]);
    }
  }

  // ---------- what the book answers

  predicate AtPrice(o: LiveOrder, side: Side, price: U64) {
    o.side == side && o.price == price
  }

  /** The queue of one price level: its live orders, in arrival order. */
  function Level(b: Book, side: Side, price: U64): Book {
    if b == [] then []
    else Level(b[..|b|-1], side, price) + if AtPrice(b[|b|-1], side, price) then [b[|b|-1]] else []
  }

  function Quantity(b: Book): nat {
    if b == [] then 0 else Quantity(b[..|b|-1]) + b[|b|-1].remaining
  }

  /** Price a is offered before price b on this side. */
  predicate Better(side: Side, a: U64, b: U64) {
    if side == Buy then a > b else a < b
  }

  /** The best price of a side: the highest bid, the lowest ask, none when the side is empty. */
  ghost predicate IsBest(b: Book, side: Side, best: Option<U64>) {
    match best
    case None => forall i :: 0 <= i < |b| ==> b[i].side != side
    case Some(p) =>
      && (exists i :: 0 <= i < |b| && AtPrice(b[i], side, p))
      && (forall i :: 0 <= i < |b| && b[i].side == side ==> !Better(side, b[i].price, p))
  }

  /** The highest price of the live buys, the lowest price of the live sells, none when there are none. */
  lemma BestIsHighestBidLowestAsk(b: Book, side: Side, best: Option<U64>)
    requires IsBest(b, side, best)
    ensures best == None <==> forall i :: 0 <= i < |b| ==> b[i].side != side
    ensures best.Some? ==> exists i :: 0 <= i < |b| && b[i].side == side && b[i].price == best.value
    ensures best.Some? ==> forall i :: 0 <= i < |b| && b[i].side == side ==>
                             if side == Buy then b[i].price <= best.value else b[i].price >= best.value
  {
  }

  /** There is only one best price. */
  lemma BestIsUnique(b: Book, side: Side, p: Option<U64>, q: Option<U64>)
    requires IsBest(b, side, p) && IsBest(b, side, q)
    ensures p == q
  {
  }

  // ---------- share conservation

  /** Where the shares of a run went. */
  datatype Tally = Tally(added: nat, executed: nat, cancelled: nat)

  function Flow(b: Book, op: Op): Tally {
    match op
    case Add(order) => Tally(if Live(b, order.id) then 0 else order.remaining, 0, 0)
    case Cancel(id) => Tally(0, 0, if Live(b, id) then b[Find(b, id)].remaining else 0)
    case Execute(id, qty) => Tally(0, Executed(b, id, qty), 0)
  }

  function Flows(ops: seq<Op>): Tally {
    if ops == [] then Tally(0, 0, 0)
    else
      var t := Flows(ops[..|ops|-1]);
      var f := Flow(Run(ops[..|ops|-1]), ops[|ops|-1]);
      Tally(t.added + f.added, t.executed + f.executed, t.cancelled + f.cancelled)
  }

  /** One more operation adds to one of the three only: an accepted add its shares, a cancel what was
      left on the order, an execution the lesser of the shares asked for and the shares left. */
  lemma FlowsByKind(ops: seq<Op>, op: Op)
    ensures var b, t, t' := Run(ops), Flows(ops), Flows(ops + [op]);
            match op
            case Add(order) => t' == t.(added := t.added + if Live(b, order.id) then 0 else order.remaining)
            case Cancel(id) => t' == t.(cancelled := t.cancelled + if Live(b, id) then b[Find(b, id)].remaining else 0)
            case Execute(id, qty) =>
              var left := if Live(b, id) then b[Find(b, id)].remaining else 0;
              t' == t.(executed := t.executed + if qty < left then qty else left)
  {
    assert (ops + [op])[..|ops|] == ops;
  }

  lemma {:induction false} QuantityConcat(a: Book, b: Book)
    ensures Quantity(a + b) == Quantity(a) + Quantity(b)
  {
    if b == [] {
      assert a + b == a;
    } else {
      QuantityConcat(a, b[..|b|-1]);
      assert (a + b)[..|a + b| - 1] == a + b[..|b|-1];
    }
  }

  lemma QuantityOne(o: LiveOrder)
    ensures Quantity([o]) == o.remaining
  {
    assert [o][..0] == [];
  }

  lemma QuantitySplit(b: Book, k: nat)
    requires k < |b|
    ensures Quantity(b) == Quantity(b[..k]) + b[k].remaining + Quantity(b[k+1..])
  {
    QuantityConcat(b[..k], [b[k]]);
    QuantityConcat(b[..k] + [b[k]], b[k+1..]);
    assert b == b[..k] + [b[k]] + b[k+1..];
    QuantityOne(b[k]);
  }

  lemma ApplyConserves(b: Book, op: Op)
    ensures var f := Flow(b, op);
            Quantity(b) + f.added == Quantity(Apply(b, op)) + f.executed + f.cancelled
  {
    match op
    case Add(order) =>
      if !Live(b, order.id) {
        QuantityConcat(b, [order]);
        QuantityOne(order);
      }
    case Cancel(id) =>
      if Live(b, id) {
        QuantityDrop(b, Find(b, id));
      }
    case Execute(id, qty) =>
      var k := Find(b, id);
      if k < |b| && b[k].remaining != 0 {
        if Executed(b, id, qty) == b[k].remaining {
          QuantityDrop(b, k);
        } else {
          QuantityWrite(b, k, b[k].remaining - Executed(b, id, qty));
        }
      }
  }

  lemma QuantityDrop(b: Book, k: nat)
    requires k < |b|
    ensures Quantity(DropAt(b, k)) == Quantity(b) - b[k].remaining
  {
    QuantitySplit(b, k);
    QuantityConcat(b[..k], b[k+1..]);
  }

  lemma QuantityWrite(b: Book, k: nat, remaining: U32)
    requires k < |b|
    ensures Quantity(b[k := b[k].(remaining := remaining)]) == Quantity(b) - b[k].remaining + remaining
  {
    var c := b[k := b[k].(remaining := remaining)];
    QuantitySplit(b, k);
    QuantitySplit(c, k);
    assert c[..k] == b[..k] && c[k+1..] == b[k+1..];
  }

  /** Over every run, the shares accepted are the shares executed, plus those still in the book,
      plus those that were on orders when they were cancelled. */
  lemma {:induction false} SharesAreConserved(ops: seq<Op>)
    ensures Flows(ops).added == Flows(ops).executed + Quantity(Run(ops)) + Flows(ops).cancelled
  {
    if ops != [] {
      SharesAreConserved(ops[..|ops|-1]);
      ApplyConserves(Run(ops[..|ops|-1]), ops[|ops|-1]);
    }
  }

  /** Where the order at position j of the new book was before the operation. */
  function Before(b: Book, op: Op, j: nat): nat
    requires j < |Apply(b, op)|
  {
    if |Apply(b, op)| >= |b| || j < Find(b, op.id) then j else j + 1
  }

  /** Every order in the book after an operation is either the one just added or one that was
      there before, on the same side and price, with a remaining quantity lowered by exactly what an
      execution of that order returned, and never raised. */
  lemma RemainingNeverGrows(b: Book, op: Op, j: nat)
    requires UniqueIds(b) && j < |Apply(b, op)|
    ensures var i, o' := Before(b, op, j), Apply(b, op)[j];
            if i == |b| then op == Add(o') && !Live(b, o'.id)
            else
              && i < |b| && o'.id == b[i].id && o'.side == b[i].side && o'.price == b[i].price
              && o'.remaining == b[i].remaining - if op.Execute? && op.id == o'.id then Executed(b, op.id, op.qty) else 0
  {
    var i := Before(b, op, j);
    match op
    case Add(order) =>
      if i < |b| {
        FindAt(b, i);
      }
    case Cancel(id) =>
      FindAt(b, i);
    case Execute(id, qty) =>
      FindAt(b, i);
  }

  lemma FindAt(b: Book, i: nat)
    requires UniqueIds(b) && i < |b|
    ensures Find(b, b[i].id) == i
  {
  }

  /** An execution takes the lesser of the shares asked for and the shares remaining, and leaves the
      difference on the order; a filled order leaves the book, and nothing else changes. */
  lemma ExecutionTakesTheLesser(b: Book, k: nat, qty: U32)
    requires UniqueIds(b) && k < |b|
    ensures var id, left := b[k].id, b[k].remaining;
            && Executed(b, id, qty) == (if qty < left then qty else left)
            && Apply(b, Execute(id, qty))
               == if qty < left then b[k := b[k].(remaining := left - qty)] else if left > 0 then DropAt(b, k) else b
  {
    FindAt(b, k);
  }

  /** Cancelling an order whose remaining quantity has just been written removes that order. */
  lemma CancelAfterWrite(b: Book, id: U64, remaining: U32)
    requires Live(b, id)
    ensures var k := Find(b, id);
            var c := b[k := b[k].(remaining := remaining)];
            Live(c, id) && Apply(c, Cancel(id)) == DropAt(b, k)
  {
    var k := Find(b, id);
    var c := b[k := b[k].(remaining := remaining)];
    assert c[k].id == id;
    assert Find(c, id) == k;
  }

  // ---------- price-time priority

  /** The number of operations up to and including the add that put the id into the book. */
  function Arrival(ops: seq<Op>, id: U64): nat {
    if ops == [] then 0
    else
      var rest, op := ops[..|ops|-1], ops[|ops|-1];
      if op.Add? && op.order.id == id && !Live(Run(rest), id) then |ops| else Arrival(rest, id)
  }

  lemma {:induction false} ArrivalInRun(ops: seq<Op>, id: U64)
    ensures Arrival(ops, id) <= |ops|
  {
    if ops != [] {
      ArrivalInRun(ops[..|ops|-1], id);
    }
  }

  /** Time priority: over every run the book lists its live orders strictly in the order of the
      adds that were accepted for them. */
  lemma {:induction false} RunIsInArrivalOrder(ops: seq<Op>, i: nat, j: nat)
    requires i < j < |Run(ops)|
    ensures Arrival(ops, Run(ops)[i].id) < Arrival(ops, Run(ops)[j].id)
  {
    var rest, op := ops[..|ops|-1], ops[|ops|-1];
    var b := Run(rest);
    RunHasUniqueIds(rest);
    var i', j' := Before(b, op, i), Before(b, op, j);
    RemainingNeverGrows(b, op, i);
    RemainingNeverGrows(b, op, j);
    ArrivalSurvives(ops, i);
    if j' < |b| {
      ArrivalSurvives(ops, j);
      RunIsInArrivalOrder(rest, i', j');
    } else {
      ArrivalInRun(rest, b[i'].id);
    }
  }

  lemma ArrivalSurvives(ops: seq<Op>, i: nat)
    requires ops != [] && i < |Run(ops)|
    ensures var rest, op := ops[..|ops|-1], ops[|ops|-1];
            Before(Run(rest), op, i) < |Run(rest)| ==> Arrival(ops, Run(ops)[i].id) == Arrival(rest, Run(ops)[i].id)
  {
    var rest, op := ops[..|ops|-1], ops[|ops|-1];
    RunHasUniqueIds(rest);
    RemainingNeverGrows(Run(rest), op, i);
    if Before(Run(rest), op, i) < |Run(rest)| {
      FindAt(Run(rest), Before(Run(rest), op, i));
    }
  }

  lemma {:induction false} LevelConcat(a: Book, b: Book, side: Side, price: U64)
    ensures Level(a + b, side, price) == Level(a, side, price) + Level(b, side, price)
  {
    if b == [] {
      assert a + b == a;
    } else {
      LevelConcat(a, b[..|b|-1], side, price);
      assert (a + b)[..|a + b| - 1] == a + b[..|b|-1];
    }
  }

  /** A level queue lists exactly the live orders of its side and price. */
  lemma {:induction false} LevelMembers(b: Book, side: Side, price: U64, o: LiveOrder)
    ensures o in Level(b, side, price) <==> o in b && o.side == side && o.price == price
  {
    if b != [] {
      LevelMembers(b[..|b|-1], side, price, o);
      assert b == b[..|b|-1] + [b[|b|-1]];
    }
  }

  /** Where in the book an element of a level queue stands. */
  lemma {:induction false} LevelPosition(b: Book, side: Side, price: U64, i: nat) returns (x: nat)
    requires i < |Level(b, side, price)|
    ensures x < |b| && b[x] == Level(b, side, price)[i]
    ensures Level(b[..x], side, price) == Level(b, side, price)[..i]
  {
    var n := |b| - 1;
    if i < |Level(b[..n], side, price)| {
      x := LevelPosition(b[..n], side, price, i);
      assert b[..n][..x] == b[..x];
    } else {
      x := n;
    }
  }

  /** Price-time priority: over every run each level queue stands strictly in the order of the adds
      that were accepted for its orders. */
  lemma LevelInArrivalOrder(ops: seq<Op>, side: Side, price: U64, i: nat, j: nat)
    requires i < j < |Level(Run(ops), side, price)|
    ensures var queue := Level(Run(ops), side, price); Arrival(ops, queue[i].id) < Arrival(ops, queue[j].id)
  {
    var b := Run(ops);
    var y := LevelPosition(b, side, price, j);
    var x := LevelPosition(b[..y], side, price, i);
    assert b[x] == Level(b, side, price)[i];
    RunIsInArrivalOrder(ops, x, y);
  }

  /** Removing any order of a level, at its head, middle or tail, closes the queue up behind it and
      leaves every other level alone. */
  lemma CancelClosesLevel(b: Book, k: nat, side: Side, price: U64)
    requires k < |b|
    ensures var before := Level(b[..k], side, price);
            var after := Level(b[k+1..], side, price);
            && Level(b, side, price) == before + (if AtPrice(b[k], side, price) then [b[k]] else []) + after
            && Level(DropAt(b, k), side, price) == before + after
  {
    LevelConcat(b[..k], b[k+1..], side, price);
    LevelConcat(b[..k+1], b[k+1..], side, price);
    assert b == b[..k+1] + b[k+1..];
    assert b[..k+1][..k] == b[..k];
  }
}

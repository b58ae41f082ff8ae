/** The market data handler as a value: what one ITCH message does to the book, the counters and
    the event stream. */
module HandlerModel {
  import opened Basics
  import opened Lists
  import opened Orders
  import opened BookModel

  // ---------- ITCH messages: packed structures in the machine's own byte order

  function U32At(data: Bytes, off: nat): U32
    requires off + 4 <= |data|
  {
    var b0: int, b1: int, b2: int, b3: int := data[off], data[off + 1], data[off + 2], data[off + 3];
    b0 + 0x100 * b1 + 0x1_0000 * b2 + 0x100_0000 * b3
  }

  function U64At(data: Bytes, off: nat): U64
    requires off + 8 <= |data|
  {
    var low: int, high: int := U32At(data, off), U32At(data, off + 4);
    low + TWO_32 * high
  }

  datatype Message =
    | AddOrder(ref: U64, side: Side, shares: U32, price: U64)
    | ExecuteOrder(ref: U64, shares: U32)
    | CancelOrder(ref: U64)
    | DeleteOrder(ref: U64)
    | ReplaceOrder(ref: U64)
    | Trade

  /** The message type byte and the size check of the cast. A cancel carries a share count and a
      replace a new order; neither is read. */
  function Decode(data: Bytes): Option<Message> {
    if |data| < 3 then None
    else if data[2] == 0x41 || data[2] == 0x46 then
      if |data| < 41 then None
      else Some(AddOrder(U64At(data, 8), if data[16] == 0x42 then Buy else Sell, U32At(data, 17), U64At(data, 29)))
    else if data[2] == 0x45 || data[2] == 0x43 then
      if |data| < 36 then None else Some(ExecuteOrder(U64At(data, 8), U32At(data, 16)))
    else if data[2] == 0x58 then
      if |data| < 20 then None else Some(CancelOrder(U64At(data, 8)))
    else if data[2] == 0x44 then
      if |data| < 16 then None else Some(DeleteOrder(U64At(data, 8)))
    else if data[2] == 0x55 then
      if |data| < 36 then None else Some(ReplaceOrder(U64At(data, 8)))
    else if data[2] == 0x50 then
      if |data| < 42 then None else Some(Trade)
    else None
  }

  datatype EventType =
    | ORDER_ADDED | ORDER_EXECUTED | ORDER_CANCELLED | ORDER_DELETED | ORDER_REPLACED | TRADE

  datatype Event = Event(kind: EventType, instrument: U32, timestamp: U32, data: Bytes)

  datatype State = State(book: Book, total: nat, processed: nat, events: seq<Event>)

  // ---------- one message

  /** The book operation a message stands for. */
  function BookOp(m: Message): Option<Op> {
    match m
    case AddOrder(ref, side, shares, price) => Some(Add(LiveOrder(ref, side, price, shares)))
    case ExecuteOrder(ref, shares) => Some(Execute(ref, shares))
    case CancelOrder(ref) => Some(Cancel(ref))
    case DeleteOrder(ref) => Some(Cancel(ref))
    case ReplaceOrder(ref) => Some(Cancel(ref))
    case Trade => None
  }

  function AfterMessage(b: Book, m: Message): Book {
    match BookOp(m) case None => b case Some(op) => Apply(b, op)
  }

  /** Whether a message is processed, that is, raises an event. */
  predicate Raises(b: Book, m: Message) {
    match m
    case AddOrder(ref, _, _, _) => !Live(b, ref)
    case ExecuteOrder(ref, shares) => Executed(b, ref, shares) > 0
    case CancelOrder(ref) => Live(b, ref)
    case DeleteOrder(ref) => Live(b, ref)
    case ReplaceOrder(_) => true
    case Trade => true
  }

  function KindOf(m: Message): EventType {
    match m
    case AddOrder(_, _, _, _) => ORDER_ADDED
    case ExecuteOrder(_, _) => ORDER_EXECUTED
    case CancelOrder(_) => ORDER_CANCELLED
    case DeleteOrder(_) => ORDER_DELETED
    case ReplaceOrder(_) => ORDER_REPLACED
    case Trade => TRADE
  }

  function EventOf(instrument: U32, m: Message, data: Bytes): Event
    requires |data| >= 8
  {
    Event(KindOf(m), instrument, U32At(data, 4), data)
  }

  lemma DecodedSize(data: Bytes)
    requires Decode(data).Some?
    ensures |data| >= 8
  {
  }

  function Raised(s: State, instrument: U32, m: Message, data: Bytes): State
    requires |data| >= 8
  {
    s.(processed := s.processed + 1, events := s.events + [EventOf(instrument, m, data)])
  }

  /** What one decoded message does. */
  function React(s: State, instrument: U32, m: Message, data: Bytes): State
    requires |data| >= 8
  {
    var updated := s.(book := AfterMessage(s.book, m));
    if Raises(s.book, m) then Raised(updated, instrument, m, data) else updated
  }

  /** What one call of process_message does. */
  function Step(s: State, instrument: U32, data: Bytes): State {
    if |data| < 3 then s
    else
      var counted := s.(total := s.total + 1);
      if Decode(data).None? then counted
      else DecodedSize(data); React(counted, instrument, Decode(data).value, data)
  }

  /** A stream of messages, in order. */
  function Feed(s: State, instrument: U32, stream: seq<Bytes>): State
    decreases |stream|
  {
    if stream == [] then s
    else Step(Feed(s, instrument, stream[..|stream|-1]), instrument, stream[|stream|-1])
  }

  /** What one decoded message does, kind by kind: an add enters its order unless the id is live, an
      execution takes the lesser of its shares and the remainder, cancel, delete and replace take the
      order out whole, a trade leaves the book alone; and a message that did something, like every replace
      and trade, raises one event that carries it. */
  lemma ReactionByKind(s: State, instrument: U32, m: Message, data: Bytes)
    requires |data| >= 8
    ensures var r, b, stamp := React(s, instrument, m, data), s.book, U32At(data, 4);
            && r.total == s.total
            && match m
               case AddOrder(ref, side, shares, price) =>
                 if Live(b, ref) then r == s
                 else r == State(b + [LiveOrder(ref, side, price, shares)], s.total, s.processed + 1,
                                 s.events + [Event(ORDER_ADDED, instrument, stamp, data)])
               case ExecuteOrder(ref, shares) =>
                 var k := Find(b, ref);
                 if k == |b| || b[k].remaining == 0 || shares == 0 then r == s
                 else r == State(if shares < b[k].remaining then b[k := b[k].(remaining := b[k].remaining - shares)]
                                 else DropAt(b, k),
                                 s.total, s.processed + 1, s.events + [Event(ORDER_EXECUTED, instrument, stamp, data)])
               case CancelOrder(ref) =>
                 if !Live(b, ref) then r == s
                 else r == State(DropAt(b, Find(b, ref)), s.total, s.processed + 1,
                                 s.events + [Event(ORDER_CANCELLED, instrument, stamp, data)])
               case DeleteOrder(ref) =>
                 if !Live(b, ref) then r == s
                 else r == State(DropAt(b, Find(b, ref)), s.total, s.processed + 1,
                                 s.events + [Event(ORDER_DELETED, instrument, stamp, data)])
               case ReplaceOrder(ref) =>
                 r == State(if Live(b, ref) then DropAt(b, Find(b, ref)) else b, s.total, s.processed + 1,
                            s.events + [Event(ORDER_REPLACED, instrument, stamp, data)])
               case Trade =>
                 r == State(b, s.total, s.processed + 1, s.events + [Event(TRADE, instrument, stamp, data)])
  {
    match m
    case ExecuteOrder(ref, shares) =>
      var k := Find(s.book, ref);
      if k < |s.book| && shares == 0 {
        assert s.book[k := s.book[k].(remaining := s.book[k].remaining - 0)] == s.book;
      }
    case _ =>
  }

  /** What one call of process_message does to any bytes: fewer than three are not looked at, other
      bytes are counted, and those that are a message do what it does. */
  lemma StepByKind(s: State, instrument: U32, data: Bytes)
    ensures var r, counted := Step(s, instrument, data), s.(total := s.total + 1);
            if |data| < 3 then r == s
            else if Decode(data) == None then r == counted
            else |data| >= 8 && r == React(counted, instrument, Decode(data).value, data)
  {
    if Decode(data).Some? {
      DecodedSize(data);
    }
  }

  lemma FeedNothing(s: State, instrument: U32)
    ensures Feed(s, instrument, []) == s
  {
  }

  lemma FeedOne(s: State, instrument: U32, done: seq<Bytes>, data: Bytes)
    ensures Feed(s, instrument, done + [data]) == Step(Feed(s, instrument, done), instrument, data)
  {
    assert (done + [data])[..|done|] == done;
  }

  const Fresh: State := State([], 0, 0, [])

  // ---------- what holds over every stream

  /** A message that raises nothing leaves the book alone; a processed one is a counted one. */
  lemma QuietLeavesBook(s: State, instrument: U32, data: Bytes)
    ensures Step(s, instrument, data).events == s.events ==> Step(s, instrument, data).book == s.book
    ensures Step(s, instrument, data).processed - s.processed <= Step(s, instrument, data).total - s.total
  {
    if Decode(data).Some? {
      var m := Decode(data).value;
      if m.ExecuteOrder? && Live(s.book, m.ref) {
        var k := Find(s.book, m.ref);
        if Executed(s.book, m.ref, m.shares) == 0 && s.book[k].remaining != 0 {
          assert AfterTaking(s.book, k, m.shares) == s.book;
        }
      }
    }
  }

  /** How many of these have a message header. */
  function WithHeader(stream: seq<Bytes>): nat {
    if stream == [] then 0
    else WithHeader(stream[..|stream|-1]) + if |stream[|stream|-1]| >= 3 then 1 else 0
  }

  /** Fed through process_message alone, the handler has counted exactly the messages long enough for a
      header, and processed exactly as many as it has raised events, never more than it has counted. */
  lemma {:induction false} CountersAgree(instrument: U32, stream: seq<Bytes>)
    ensures var s := Feed(Fresh, instrument, stream);
            s.processed == |s.events| <= s.total == WithHeader(stream) <= |stream|
  {
    if stream != [] {
      CountersAgree(instrument, stream[..|stream|-1]);
      QuietLeavesBook(Feed(Fresh, instrument, stream[..|stream|-1]), instrument, stream[|stream|-1]);
    }
  }

  /** Feeding goes message by message, so the events of a stream extend those of its every prefix. */
  lemma {:induction false} FeedConcat(s: State, instrument: U32, a: seq<Bytes>, b: seq<Bytes>)
    ensures Feed(s, instrument, a + b) == Feed(Feed(s, instrument, a), instrument, b)
    ensures Feed(s, instrument, a).events <= Feed(s, instrument, a + b).events
    decreases |b|
  {
    if b == [] {
      assert a + b == a;
    } else {
      FeedConcat(s, instrument, a, b[..|b|-1]);
      assert (a + b)[..|a + b| - 1] == a + b[..|b|-1];
    }
  }

  /** Orders put into the book, and taken out of it, by one message. */
  function Adds(b: Book, m: Message): nat {
    if m.AddOrder? && !Live(b, m.ref) then 1 else 0
  }

  function Removes(b: Book, m: Message): nat {
    match m
    case AddOrder(_, _, _, _) => 0
    case ExecuteOrder(ref, shares) =>
      if Live(b, ref) && 0 < b[Find(b, ref)].remaining <= shares then 1 else 0
    case CancelOrder(ref) => if Live(b, ref) then 1 else 0
    case DeleteOrder(ref) => if Live(b, ref) then 1 else 0
    case ReplaceOrder(ref) => if Live(b, ref) then 1 else 0
    case Trade => 0
  }

  lemma MessageCount(b: Book, m: Message)
    ensures |AfterMessage(b, m)| == |b| + Adds(b, m) - Removes(b, m)
  {
  }

  /** Adds and removals over a stream. */
  function Turnover(instrument: U32, stream: seq<Bytes>): (nat, nat)
    decreases |stream|
  {
    if stream == [] then (0, 0)
    else
      var rest, data := stream[..|stream|-1], stream[|stream|-1];
      var b, t := Feed(Fresh, instrument, rest).book, Turnover(instrument, rest);
      match Decode(data) {
        case None => t
        case Some(m) => (t.0 + Adds(b, m), t.1 + Removes(b, m))
      }
  }

  /** The pending orders are the accepted adds, less the orders removed by a cancel, a delete, a
      replace or a full execution. */
  lemma {:induction false} PendingIsTurnover(instrument: U32, stream: seq<Bytes>)
    ensures |Feed(Fresh, instrument, stream).book| == Turnover(instrument, stream).0 - Turnover(instrument, stream).1
    ensures UniqueIds(Feed(Fresh, instrument, stream).book)
  {
    if stream != [] {
      var rest, data := stream[..|stream|-1], stream[|stream|-1];
      PendingIsTurnover(instrument, rest);
      var b := Feed(Fresh, instrument, rest).book;
      match Decode(data)
      case None =>
      case Some(m) =>
        MessageCount(b, m);
        if BookOp(m).Some? {
          ApplyKeepsUniqueIds(b, BookOp(m).value);
        }
    }
  }

  function CountKind(events: seq<Event>, kind: EventType): nat {
    if events == [] then 0
    else CountKind(events[..|events|-1], kind) + if events[|events|-1].kind == kind then 1 else 0
  }

  lemma CountKindNext(events: seq<Event>, event: Event, kind: EventType)
    ensures CountKind(events + [event], kind) == CountKind(events, kind) + if event.kind == kind then 1 else 0
  {
    assert (events + [event])[..|events|] == events;
  }

  function CountTaken(events: seq<Event>): nat {
    CountKind(events, ORDER_CANCELLED) + CountKind(events, ORDER_DELETED)
  }

  function CountMaybeTaken(events: seq<Event>): nat {
    CountKind(events, ORDER_REPLACED) + CountKind(events, ORDER_EXECUTED)
  }

  lemma MessageInEvents(s: State, instrument: U32, m: Message, data: Bytes)
    requires |data| >= 8
    ensures var e, r := s.events, React(s, instrument, m, data).events;
            && CountKind(r, ORDER_ADDED) == CountKind(e, ORDER_ADDED) + Adds(s.book, m)
            && CountTaken(r) <= CountTaken(e) + Removes(s.book, m)
            && CountTaken(e) + CountMaybeTaken(e) + Removes(s.book, m) <= CountTaken(r) + CountMaybeTaken(r)
  {
    var event := EventOf(instrument, m, data);
    CountKindNext(s.events, event, ORDER_ADDED);
    CountKindNext(s.events, event, ORDER_CANCELLED);
    CountKindNext(s.events, event, ORDER_DELETED);
    CountKindNext(s.events, event, ORDER_REPLACED);
    CountKindNext(s.events, event, ORDER_EXECUTED);
    hide CountKind, Apply;
  }

  /** The accepted adds are the events that say so; every cancel and delete event is a removal, and every
      removal is one of those, a replace event or an execution event. */
  lemma {:induction false} TurnoverIsInEvents(instrument: U32, stream: seq<Bytes>)
    ensures var e, t := Feed(Fresh, instrument, stream).events, Turnover(instrument, stream);
            t.0 == CountKind(e, ORDER_ADDED) && CountTaken(e) <= t.1 <= CountTaken(e) + CountMaybeTaken(e)
  {
    if stream != [] {
      var rest, data := stream[..|stream|-1], stream[|stream|-1];
      TurnoverIsInEvents(instrument, rest);
      var s := Feed(Fresh, instrument, rest);
      assert Feed(Fresh, instrument, stream) == Step(s, instrument, data);
      StepByKind(s, instrument, data);
      hide Step, React, CountTaken, CountMaybeTaken, CountKind, Adds, Removes, Decode;
      if Decode(data).Some? {
        MessageInEvents(s.(total := s.total + 1), instrument, Decode(data).value, data);
      }
    }
  }
}

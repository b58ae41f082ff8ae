/** The market data handler over the indexed book, and the receive path that drives it. */
module MarketDataHandlers {
  import opened Basics
  import opened Lists
  import opened Orders
  import opened BookModel
  import opened SlotTables
  import opened OrderBooks
  import opened HandlerModel
  import opened MoldUdp64
  import opened UdpPackets

  /** What the receive path dispatches: the blocks the Python parser reads too, or the raw payload. */
  function Dispatched(payload: Bytes): seq<Bytes> {
    if Parse(payload) != [] then Parse(payload) else [payload]
  }

  function PayloadOf(packet: Bytes): Bytes
    requires ExtractUdpPayload(packet).Some?
  {
    ExtractInBounds(packet);
    var (off, len) := ExtractUdpPayload(packet).value;
    packet[off..off + len]
  }

  /** End to end: a sender's frame in a legal packet dispatches exactly the sender's messages; only a
      frame of no messages is taken for one raw message. */
  lemma SenderToDispatch(seqNo: int, messages: seq<Bytes>, p: Packet)
    requires Legal(p) && BuildFrame(seqNo, messages) == Some(p.payload) && AllNonEmpty(messages)
    ensures ExtractUdpPayload(Encode(p)).Some?
    ensures Dispatched(PayloadOf(Encode(p))) == if messages == [] then [p.payload] else messages
  {
    EndToEnd(seqNo, messages, p);
  }

  /** These are the events from this position on. */
  predicate Handed(seen: seq<Event>, from: nat, events: seq<Event>) {
    from <= |events| && seen == events[from..]
  }

  lemma HandedMore(seen: seq<Event>, from: nat, events: seq<Event>, event: Event)
    requires Handed(seen, from, events)
    ensures Handed(seen + [event], from, events + [event])
  {
  }

  /** The raw fallback, whatever the length: in particular a payload too short for a header is always
      one raw message. */
  lemma DispatchedByParse(s: State, instrument: U32, payload: Bytes)
    ensures Feed(s, instrument, Dispatched(payload))
         == if Parse(payload) == [] then Step(s, instrument, payload) else Feed(s, instrument, Parse(payload))
    ensures |payload| < 20 ==> Parse(payload) == []
  {
    FeedOne(s, instrument, [], payload);
    FeedNothing(s, instrument);
    assert [] + [payload] == [payload];
  }

  class MarketDataHandler {
    const instrument: U32
    const book: OrderBook
    var callbacks: seq<seq<Event>>    // what each registered callback has been handed
    var total: nat
    var processed: nat
    ghost var events: seq<Event>      // every event raised
    ghost var since: seq<nat>         // how many had been raised when each callback was registered

    constructor (instrument: U32, requested: U64, mix: Hash, rule: ShiftRule)
      requires requested <= 0x8000_0000_0000_0000
      ensures Valid() && View() == Fresh && callbacks == []
      ensures book.orders.rule == rule && book.orders.slots.Length >= requested
    {
      this.instrument := instrument;
      book := new OrderBook(instrument, requested, mix, rule);
      callbacks, total, processed := [], 0, 0;
      events, since := [], [];
    }

    ghost predicate Valid()
      reads this, book, book.orders, book.orders.slots, book.bids, book.asks
      reads (set o | o in book.live)`next, (set o | o in book.live)`prev
    {
      book.Valid() && Notified()
    }

    /** Every callback has been handed, in order, exactly the events raised since its registration. */
    ghost predicate Notified()
      reads this`callbacks, this`since, this`events
    {
      |callbacks| == |since| && forall i :: 0 <= i < |callbacks| ==> Handed(callbacks[i], since[i], events)
    }

    ghost function View(): State
      reads this, book, (set o | o in book.live)`remaining
    {
      State(book.View(), total, processed, events)
    }

    method RegisterCallback()
      requires Valid()
      modifies this`callbacks, this`since
      ensures Valid() && View() == old(View())
      ensures |callbacks| == |old(callbacks)| + 1 && callbacks[|callbacks| - 1] == []
      ensures callbacks[..|callbacks| - 1] == old(callbacks)
    {
      callbacks := callbacks + [[]];
      since := since + [|events|];
    }

    method FireCallback(event: Event)
      requires Notified()
      modifies this`callbacks, this`events
      ensures Notified() && events == old(events) + [event] && |callbacks| == |old(callbacks)|
      ensures forall i :: 0 <= i < |callbacks| ==> callbacks[i] == old(callbacks)[i] + [event]
    {
      events := events + [event];
      var i := 0;
      while i < |callbacks|
        invariant i <= |callbacks| == |since| == |old(callbacks)| && since == old(since)
        invariant events == old(events) + [event]
        invariant forall k :: 0 <= k < |callbacks| ==>
                    callbacks[k] == if k < i then old(callbacks)[k] + [event] else old(callbacks)[k]
        invariant forall k :: 0 <= k < i ==> Handed(callbacks[k], since[k], events)
        invariant forall k :: i <= k < |callbacks| ==> Handed(callbacks[k], since[k], old(events))
      {
        HandedMore(callbacks[i], since[i], old(events), event);
        callbacks := callbacks[i := callbacks[i] + [event]];
        i := i + 1;
      }
    }

    /** The message can be taken: the search for its order ends, and removing an order disturbs no
        other in the order map. */
    ghost predicate Ready(m: Message)
      requires book.Valid()
      reads book, book.orders, book.orders.slots, book.bids, book.asks
      reads (set o | o in book.live)`next, (set o | o in book.live)`prev, (set o | o in book.live)`remaining
    {
      match BookOp(m)
      case None => true
      case Some(Add(order)) => book.CanFind(order.id)
      case Some(Cancel(id)) => book.CanFind(id) && book.Erasable(id)
      case Some(Execute(id, qty)) =>
        && book.CanFind(id)
        && var b := book.View();
           Live(b, id) && 0 < b[Find(b, id)].remaining <= qty ==> book.Erasable(id)
    }

    /** Hand the event of a processed message to the callbacks and count it. */
    method Raise(m: Message, data: Bytes)
      requires Valid() && |data| >= 8
      modifies this`callbacks, this`events, this`processed
      ensures Valid() == old(Valid()) && book.Valid() == old(book.Valid()) && book.View() == old(book.View())
      ensures View() == Raised(old(View()), instrument, m, data)
    {
      FireCallback(EventOf(instrument, m, data));
      processed := processed + 1;
    }

    method ProcessAddOrder(m: Message, data: Bytes)
      requires Valid() && m.AddOrder? && |data| >= 8 && Ready(m)
      modifies this`callbacks, this`events, this`processed
      modifies book, book.orders`size, book.orders.slots, book.bids, book.asks, (set o | o in book.live)`next
      ensures Valid() == old(Valid()) && View() == React(old(View()), instrument, m, data)
      ensures var s := old(View());
              if Live(s.book, m.ref) then View() == s
              else View() == State(s.book + [LiveOrder(m.ref, m.side, m.price, m.shares)], s.total, s.processed + 1,
                                s.events + [Event(ORDER_ADDED, instrument, U32At(data, 4), data)])
      ensures !Live(old(book.View()), m.ref) ==>
                book.live != [] && book.live[|book.live|-1].instrument == instrument && book.live[|book.live|-1].qty == m.shares
      ensures forall l :: (l in book.bids && l !in old(book.bids)) || (l in book.asks && l !in old(book.asks)) ==> fresh(l)
      ensures forall o :: o in book.live && o !in old(book.live) ==> fresh(o)
    {
      hide OrderBook.Valid, Find, Executed, Apply;
      ReactionByKind(View(), instrument, m, data);
      var ok := AddToBook(m);
      if ok {
        Raise(m, data);
      }
    }

    method AddToBook(m: Message) returns (ok: bool)
      requires Valid() && m.AddOrder? && Ready(m)
      modifies book, book.orders`size, book.orders.slots, book.bids, book.asks, (set o | o in book.live)`next
      ensures Valid() == old(Valid()) && ok == Raises(old(book.View()), m)
      ensures ok ==> book.live != [] && book.live[|book.live|-1].instrument == instrument
                     && book.live[|book.live|-1].qty == m.shares
      ensures View() == old(View()).(book := AfterMessage(old(book.View()), m))
      ensures forall l :: (l in book.bids && l !in old(book.bids)) || (l in book.asks && l !in old(book.asks)) ==> fresh(l)
      ensures forall o :: o in book.live && o !in old(book.live) ==> fresh(o)
    {
      var order := new Order(m.ref, instrument, m.side, m.price, m.shares);
      assert book.Valid() == old(book.Valid()) && book.View() == old(book.View());
      ok := book.AddOrder(order);
    }

    method ProcessExecuteOrder(m: Message, data: Bytes)
      requires Valid() && m.ExecuteOrder? && |data| >= 8 && Ready(m)
      modifies this`callbacks, this`events, this`processed
      modifies book, book.orders`size, book.orders.slots, book.bids, book.asks
      modifies (set o | o in book.live)`next, (set o | o in book.live)`prev, (set o | o in book.live)`remaining
      ensures Valid() == old(Valid()) && View() == React(old(View()), instrument, m, data)
      ensures var s, k := old(View()), Find(old(book.View()), m.ref);
              if k == |s.book| || s.book[k].remaining == 0 || m.shares == 0 then View() == s
              else
                var left := s.book[k].remaining;
                View() == State(if m.shares < left then s.book[k := s.book[k].(remaining := left - m.shares)]
                                else DropAt(s.book, k), s.total, s.processed + 1,
                                s.events + [Event(ORDER_EXECUTED, instrument, U32At(data, 4), data)])
      ensures forall o :: o in book.live ==> o in old(book.live)
      ensures forall l :: (l in book.bids ==> l in old(book.bids)) && (l in book.asks ==> l in old(book.asks))
    {
      hide OrderBook.Valid, Find, Executed, Apply;
      ReactionByKind(View(), instrument, m, data);
      var executed := book.ExecuteOrder(m.ref, m.shares);
      if executed > 0 {
        Raise(m, data);
      }
    }

    method ProcessCancelOrder(m: Message, data: Bytes)
      requires Valid() && m.CancelOrder? && |data| >= 8 && Ready(m)
      modifies this`callbacks, this`events, this`processed
      modifies book, book.orders`size, book.orders.slots, book.bids, book.asks
      modifies (set o | o in book.live)`next, (set o | o in book.live)`prev
      ensures Valid() == old(Valid()) && View() == React(old(View()), instrument, m, data)
      ensures var s := old(View());
              if !Live(s.book, m.ref) then View() == s
              else View() == State(DropAt(s.book, Find(s.book, m.ref)), s.total, s.processed + 1,
                                s.events + [Event(ORDER_CANCELLED, instrument, U32At(data, 4), data)])
      ensures forall o :: o in book.live ==> o in old(book.live)
      ensures forall l :: (l in book.bids ==> l in old(book.bids)) && (l in book.asks ==> l in old(book.asks))
    {
      hide OrderBook.Valid, Find, Executed, Apply;
      ReactionByKind(View(), instrument, m, data);
      var ok := book.CancelOrder(m.ref);
      if ok {
        Raise(m, data);
      }
    }

    method ProcessDeleteOrder(m: Message, data: Bytes)
      requires Valid() && m.DeleteOrder? && |data| >= 8 && Ready(m)
      modifies this`callbacks, this`events, this`processed
      modifies book, book.orders`size, book.orders.slots, book.bids, book.asks
      modifies (set o | o in book.live)`next, (set o | o in book.live)`prev
      ensures Valid() == old(Valid()) && View() == React(old(View()), instrument, m, data)
      ensures var s := old(View());
              if !Live(s.book, m.ref) then View() == s
              else View() == State(DropAt(s.book, Find(s.book, m.ref)), s.total, s.processed + 1,
                                s.events + [Event(ORDER_DELETED, instrument, U32At(data, 4), data)])
      ensures forall o :: o in book.live ==> o in old(book.live)
      ensures forall l :: (l in book.bids ==> l in old(book.bids)) && (l in book.asks ==> l in old(book.asks))
    {
      hide OrderBook.Valid, Find, Executed, Apply;
      ReactionByKind(View(), instrument, m, data);
      var ok := book.CancelOrder(m.ref);
      if ok {
        Raise(m, data);
      }
    }

    /** A replace only takes the old order out, and always raises an event. */
    method ProcessReplaceOrder(m: Message, data: Bytes)
      requires Valid() && m.ReplaceOrder? && |data| >= 8 && Ready(m)
      modifies this`callbacks, this`events, this`processed
      modifies book, book.orders`size, book.orders.slots, book.bids, book.asks
      modifies (set o | o in book.live)`next, (set o | o in book.live)`prev
      ensures Valid() == old(Valid()) && View() == React(old(View()), instrument, m, data)
      ensures var s := old(View());
              View() == State(if Live(s.book, m.ref) then DropAt(s.book, Find(s.book, m.ref)) else s.book, s.total, s.processed + 1,
                                s.events + [Event(ORDER_REPLACED, instrument, U32At(data, 4), data)])
      ensures forall o :: o in book.live ==> o in old(book.live)
      ensures forall l :: (l in book.bids ==> l in old(book.bids)) && (l in book.asks ==> l in old(book.asks))
    {
      hide OrderBook.Valid, Find, Executed, Apply;
      ReactionByKind(View(), instrument, m, data);
      var ok := book.CancelOrder(m.ref);
      Raise(m, data);
    }

    method ProcessTrade(m: Message, data: Bytes)
      requires Valid() && m.Trade? && |data| >= 8
      modifies this`callbacks, this`events, this`processed
      ensures Valid() == old(Valid()) && View() == React(old(View()), instrument, m, data)
      ensures var s := old(View());
              View() == State(s.book, s.total, s.processed + 1,
                                s.events + [Event(TRADE, instrument, U32At(data, 4), data)])
    {
      ReactionByKind(View(), instrument, m, data);
      Raise(m, data);
    }

    /** Decode and process one ITCH message; false when it is too short or of no known type. */
    method ProcessMessage(data: Bytes) returns (ok: bool)
      requires Valid() && (Decode(data).Some? ==> Ready(Decode(data).value))
      modifies this`callbacks, this`events, this`processed, this`total
      modifies book, book.orders`size, book.orders.slots, book.bids, book.asks
      modifies (set o | o in book.live)`next, (set o | o in book.live)`prev, (set o | o in book.live)`remaining
      ensures Valid() == old(Valid()) && View() == Step(old(View()), instrument, data)
      ensures ok == Decode(data).Some?
      ensures forall l :: (l in book.bids && l !in old(book.bids)) || (l in book.asks && l !in old(book.asks)) ==> fresh(l)
      ensures forall o :: o in book.live && o !in old(book.live) ==> fresh(o)
    {
      hide OrderBook.Valid, React, View;
      if |data| < 3 {
        return false;
      }
      Count();
      match Decode(data) {
        case None =>
          return false;
        case Some(m) =>
          DecodedSize(data);
          Process(m, data);
          return true;
      }
    }

    method Count()
      requires Valid()
      modifies this`total
      ensures Valid() == old(Valid()) && View() == old(View()).(total := old(View().total) + 1)
    {
      total := total + 1;
    }

    /** The switch on the message type. */
    method Process(m: Message, data: Bytes)
      requires Valid() && |data| >= 8 && Ready(m)
      modifies this`callbacks, this`events, this`processed
      modifies book, book.orders`size, book.orders.slots, book.bids, book.asks
      modifies (set o | o in book.live)`next, (set o | o in book.live)`prev, (set o | o in book.live)`remaining
      ensures Valid() == old(Valid()) && View() == React(old(View()), instrument, m, data)
      ensures forall l :: (l in book.bids && l !in old(book.bids)) || (l in book.asks && l !in old(book.asks)) ==> fresh(l)
      ensures forall o :: o in book.live && o !in old(book.live) ==> fresh(o)
    {
      match m {
        case AddOrder(_, _, _, _) => ProcessAddOrder(m, data);
        case ExecuteOrder(_, _) => ProcessExecuteOrder(m, data);
        case CancelOrder(_) => ProcessCancelOrder(m, data);
        case DeleteOrder(_) => ProcessDeleteOrder(m, data);
        case ReplaceOrder(_) => ProcessReplaceOrder(m, data);
        case Trade => ProcessTrade(m, data);
      }
    }

    /** With the non-strict shift, a free slot is all a message needs. */
    lemma RoomIsReady(m: Message)
      requires book.Valid() && book.orders.rule == AtLeast && |book.View()| < book.orders.slots.Length
      ensures Ready(m)
    {
      book.ViewSize();
    }

    /** The orders and levels the book holds. */
    ghost function Owned(): set<object>
      reads book
    {
      (set o | o in book.live :: o) + (set l | l in book.bids :: l) + (set l | l in book.asks :: l)
    }

    /** `process_itch_payload`: dispatch each block of a frame, or the payload itself as one message
        when no block was found. */
    method ProcessItchPayload(payload: Bytes)
      requires Valid() && book.orders.rule == AtLeast
      requires |View().book| + |Dispatched(payload)| <= book.orders.slots.Length
      modifies this`callbacks, this`events, this`processed, this`total
      modifies book, book.orders`size, book.orders.slots, Owned()
      ensures Valid() == old(Valid()) && View() == Feed(old(View()), instrument, Dispatched(payload))
      ensures View() == if Parse(payload) == [] then Step(old(View()), instrument, payload)
                        else Feed(old(View()), instrument, Parse(payload))
      ensures |payload| < 20 ==> View() == Step(old(View()), instrument, payload)
    {
      DispatchedByParse(View(), instrument, payload);
      var parsedAny := false;
      if |payload| >= 20 {
        parsedAny := DispatchBlocks(payload);
      }
      if !parsedAny {
        Dispatch(View(), [], payload);
        assert [] + [payload] == [payload];
      }
    }

    /** The loop over the blocks. */
    method DispatchBlocks(payload: Bytes) returns (parsedAny: bool)
      requires Valid() && book.orders.rule == AtLeast && |payload| >= 20
      requires |View().book| + |Parse(payload)| <= book.orders.slots.Length
      modifies this`callbacks, this`events, this`processed, this`total
      modifies book, book.orders`size, book.orders.slots, Owned()
      ensures Valid() == old(Valid()) && View() == Feed(old(View()), instrument, Parse(payload))
      ensures parsedAny == (Parse(payload) != [])
      ensures parsedAny || View() == old(View())
      ensures forall x :: x in Owned() ==> x in old(Owned()) || fresh(x)
    {
      hide *;
      ParsingStarts(payload);
      FeedNothing(View(), instrument);
      ghost var start, done := View(), [];
      var msgCount := ReadBe16(payload, 18);
      var off: nat := 20;
      parsedAny := false;
      var i := 0;
      while i < msgCount
        invariant 0 <= i <= msgCount && Valid() == old(Valid()) && parsedAny == (done != [])
        invariant Parsing(payload, off, msgCount - i, done)
        invariant View() == Feed(start, instrument, done)
        invariant |View().book| <= |start.book| + |done|
        invariant forall x :: x in Owned() ==> x in old(Owned()) || fresh(x)
      {
        ParsingGoesOn(payload, off, msgCount - i, done);
        if off + 2 > |payload| {
          break;
        }
        var blockLen := ReadBe16(payload, off);
        off := off + 2;
        if blockLen == 0 || off + blockLen > |payload| {
          break;
        }
        Dispatch(start, done, payload[off..off + blockLen]);
        done := done + [payload[off..off + blockLen]];
        parsedAny := true;
        off := off + blockLen;
        i := i + 1;
      }
      if i == msgCount {
        ParsingEnds(payload, off, done);
      }
    }

    method Dispatch(ghost start: State, ghost done: seq<Bytes>, data: Bytes)
      requires Valid() && book.orders.rule == AtLeast && |View().book| < book.orders.slots.Length
      requires View() == Feed(start, instrument, done)
      modifies this`callbacks, this`events, this`processed, this`total
      modifies book, book.orders`size, book.orders.slots, Owned()
      ensures Valid() == old(Valid()) && View() == Feed(start, instrument, done + [data])
      ensures |View().book| <= |old(View()).book| + 1
      ensures forall x :: x in Owned() ==> x in old(Owned()) || fresh(x)
    {
      hide OrderBook.Valid, Feed, Decode;
      if Decode(data).Some? {
        RoomIsReady(Decode(data).value);
        MessageCount(book.View(), Decode(data).value);
      }
      FeedOne(start, instrument, done, data);
      assert (forall o :: o in book.live ==> o in Owned()) && forall l :: l in book.bids || l in book.asks ==> l in Owned();
      var ok := ProcessMessage(data);
    }

    /** The receive callback: filter on the UDP port, unwrap, dispatch. */
    method ProcessPacket(packet: Bytes, filterPort: U16)
      requires Valid() && book.orders.rule == AtLeast
      requires ExtractUdpPayload(packet).Some? ==>
                 |View().book| + |Dispatched(PayloadOf(packet))| <= book.orders.slots.Length
      modifies this`callbacks, this`events, this`processed, this`total
      modifies book, book.orders`size, book.orders.slots, Owned()
      ensures Valid() == old(Valid())
      ensures View() == if (filterPort != 0 && UdpDstPort(packet) != filterPort) || ExtractUdpPayload(packet).None? then old(View())
                        else Feed(old(View()), instrument, Dispatched(PayloadOf(packet)))
      ensures (filterPort == 0 || UdpDstPort(packet) == filterPort) && ExtractUdpPayload(packet).Some? ==>
                var (off, len) := ExtractUdpPayload(packet).value;
                && off + len <= |packet|
                && var payload := packet[off..off + len];
                   View() == if Parse(payload) == [] then Step(old(View()), instrument, payload)
                             else Feed(old(View()), instrument, Parse(payload))
    {
      hide OrderBook.Valid, Feed, Parse;
      if filterPort != 0 && UdpDstPort(packet) != filterPort {
        return;
      }
      var udp := ExtractUdpPayload(packet);
      if udp.None? {
        return;
      }
      ExtractInBounds(packet);
      var (off, len) := udp.value;
      ProcessItchPayload(packet[off..off + len]);
    }

    method PendingOrders() returns (n: nat)
      requires Valid()
      ensures n == |View().book|
    {
      n := book.OrderCount();
    }
  }
}

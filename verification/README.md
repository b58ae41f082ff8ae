# UltraHFT in Dafny

A model of the stateful core of UltraHFT, a header-only C++ market-data stack, with proofs that its
index-heavy data structures mean what their interfaces say. `dafny verify dfyconfig.toml` checks it all.

| files | part of the system | what is proved |
|---|---|---|
| `SlotArithmetic.dfy`, `SlotTable.dfy`, `FlatOrderMap.dfy` | the open-addressing order map | probing, masks and backward-shift deletion refine a finite map; the exact condition under which the code's own shift comparison does |
| `PriceLevel.dfy`, `BookModel.dfy`, `BookSides.dfy`, `OrderBook.dfy` | orders, intrusive price-level lists, sorted level vectors, the book | the three indexes agree with one sequence of live orders after every operation; best prices, quantities, time priority, share conservation |
| `SpscQueue.dfy` | the single-producer single-consumer ring | every interleaving of atomic steps with stale views is first-in first-out and race-free on the slots |
| `WheelModel.dfy`, `WheelLaws.dfy`, `WheelReturns.dfy`, `WheelExact.dfy`, `WheelRecurring.dfy`, `TimerWheel.dfy` | the timer wheel | exactly when `tick` returns, lateness and earliness bounds, exactness and order on the tick grid, the recurring count over runs |
| `MoldUdp64.dfy`, `UdpPacket.dfy` | the Python frame builder and parser, the C++ block loop, the Ethernet/VLAN/IPv4/UDP unwrapping | round trips, unique readings, exact acceptance, end to end |
| `HandlerModel.dfy`, `ItchLayout.dfy`, `MarketDataHandler.dfy` | ITCH decoding, the market-data handler and the receive path | the handler is a fold of messages; counters, events and pending orders agree |
| `LatencyHistogram.dfy` | the log2 latency histogram | buckets and percentiles against the order statistics of the recorded samples |
| `MemoryPool.dfy` | the fixed-size object pool | free stack and bitmap partition the slots; frees are exact |

`Basics.dfy` holds the machine types and a few facts about sequences and remainders.

Objects the source updates in place are classes with the source's fields, proved against functions on
values (`View()`, `Contents()`, `Shift`, `Tick`, `Feed`); the laws are then lemmas about those functions,
over every input or every run. Fields marked `ghost`, the timer's `born` and the wheel's `calls` are
bookkeeping that no operation reads.

## Where the source and its description part

* **The shift comparison.** Line 127 of `flat_order_map.hpp` compares with `>`. The deletion described in
  its header (lines 10, 19 and 117) pulls back every displaced entry, which needs `>=`: an entry whose
  home is the hole itself is otherwise left behind an empty slot. Both comparisons are modelled
  (`ShiftRule`). With `>=` every erase is right. With `>` the outcome is characterised exactly, for
  every sound table, full or not: take the slots in turn from the erased one on, and let q be the first
  of those with the fewest remaining entries displaced across them, that is, with their home strictly
  before it and their position after. The hole comes to rest at q, and the erase is right if and only if
  q is no remaining entry's home (`Strands`, `EraseStrictKeepsSoundIff`). While a slot is free that is
  the first slot that nothing is displaced across. `StrictEraseLosesAKey` is the smallest failure,
  `StrictEraseOfFullTable` one in which the scan goes around the table.
* **Relocated orders.** The map stores orders inline and line 128 copies an entry when it shifts, while
  the price levels link orders by address. The book is modelled with orders of stable identity. Under
  the code's comparison the book's operations are therefore required to erase only where the erase
  moves and strands nothing, and `EraseInPlaceIff` says when that is: exactly when no other entry's
  probe path crosses the erased slot. `StrictEraseRelocates` shows an erase that moves an entry. Under `>=` the model describes the repaired design, in which
  slots hold references.
* **Copies.** `add_order` stores a copy, so executions change the stored order and not the caller's, which
  the unit test at `tests/unit/order_book_test.cpp:36` expects to change.
* **Recurring ids.** `schedule_recurring` documents its result as the id for stopping the timer (line 84 of
  `timer_wheel.hpp`). Each renewal takes a new id, so that id works only before the first run
  (`CalledIdCancelsNothing`, and `SpentIdCancelsNothing` on a reachable wheel).
* **Ticks that never return.** A recurring timer whose interval is a whole number of revolutions, or below
  one tick, renews itself into the bucket being scanned. tick(now) returns if and only if no such timer
  is due whose renewal, counted from the next visit to its bucket, is due by `now` again (`Returns`,
  `TickReturnsIff`). `WholeRevolutionLoops` is a reachable instance: on a new wheel, a recurring timer
  of one revolution and a first tick at its expiry. The laws about the state after a tick are stated
  for the ticks that return; `RoundsNeverEarly` and `RoundsConserve` speak of all.
* **Percentiles.** Line 86 of `latency_histogram.hpp` announces the upper bound of the bucket; line 87 returns
  its lower edge, except for bucket 0. The bounds proved are those of line 87; the value is an upper bound
  of the sample it stands for exactly when that sample is at most 1 or is the value itself
  (`EdgeBrackets`, `EdgeBelowSample`).
* **Empty messages.** The builder frames them, both parsers stop at them; a frame of no messages is handed to
  the handler as one raw message.
* **Byte order.** The sender packs message fields big-endian and the handler reads them in the machine's order,
  little-endian here. Framing is big-endian on both sides.
* **Replace and cancel.** A replace only removes the old order; a cancel ignores its share count and removes
  the whole order.

## Model

| member | source | states |
|---|---|---|
| BitTricks.NextPow2IsLeast | include/ultrahft/market_data/flat_order_map.hpp:158-164 | for every n from 1 to 2^63 the or-shift cascade yields a power of two, at least n, and no larger than any other power of two at least n |
| BitTricks.NextPow2Overflows | include/ultrahft/market_data/flat_order_map.hpp:158-164 | for every n above 2^63 the final addition wraps and the rounded capacity is 0 |
| BitTricks.MaskIsRemainder | include/ultrahft/market_data/flat_order_map.hpp:173 | and-ing with 2^k - 1 is the remainder modulo 2^k |
| BitTricks.MaskedNext | include/ultrahft/market_data/flat_order_map.hpp:83 | the masked increment is the cyclic successor used by the model |
| BitTricks.MaskedDistance | include/ultrahft/market_data/flat_order_map.hpp:127 | the masked 64-bit subtraction, wrap-around included, is the cyclic distance used by the model |
| SlotTables.ContentsHolds | include/ultrahft/market_data/flat_order_map.hpp:65-135 | the map a table stands for binds exactly the keys of its occupied slots to their values |
| SlotTables.HasEmptyIffSpare | include/ultrahft/market_data/flat_order_map.hpp:65-67 | a free slot exists exactly when fewer keys are stored than there are slots |
| SlotTables.ProbeFindsExactlyTheReached | include/ultrahft/market_data/flat_order_map.hpp:88-96 | an entry is found by its key exactly when no slot from its home to its position is empty |
| SlotTables.ProbeDecides | include/ultrahft/market_data/flat_order_map.hpp:88-96 | in a sound table the probe finds a key exactly when some slot holds it |
| SlotTables.SoundIffAllFound | include/ultrahft/market_data/flat_order_map.hpp:88-96 | the probe invariant is equivalent to every stored key being found at its own slot |
| SlotTables.InsertKeepsSound | include/ultrahft/market_data/flat_order_map.hpp:68-85 | writing where the probe stopped keeps the probe invariant and adds exactly that binding |
| SlotTables.ShiftKeepsContents | include/ultrahft/market_data/flat_order_map.hpp:118-133 | under either comparison the backward shift, from any table, loses, duplicates and changes no entry; it terminates even on a full table |
| SlotTables.ErasedRemoves | include/ultrahft/market_data/flat_order_map.hpp:109-135 | an erase removes exactly the erased key from the stored map |
| SlotTables.EraseAtLeastKeepsSound | include/ultrahft/market_data/flat_order_map.hpp:109-135 | with the non-strict comparison every erase restores the probe invariant, for any hash and any wrap-around cluster |
| SlotTables.EraseStrictKeepsSoundIff | include/ultrahft/market_data/flat_order_map.hpp:127 | with the strict comparison of the code, on any sound table, a full one included, an erase keeps every other key findable exactly when the slot with the fewest entries displaced across it, the first one from the erased slot on, is no remaining entry's home |
| SlotTables.StrictEraseLosesAKey | include/ultrahft/market_data/flat_order_map.hpp:127 | the four-slot instance in which the strict comparison leaves a key stored but unfindable, and the non-strict one does not |
| SlotTables.StrictEraseOfFullTable | include/ultrahft/market_data/flat_order_map.hpp:127 | a full table on which the strict scan goes around and leaves two keys unfindable |
| SlotTables.StrictEraseRelocates | include/ultrahft/market_data/flat_order_map.hpp:127-128 | an instance in which the strict comparison pulls an entry back to another address |
| SlotTables.EraseInPlaceIff | include/ultrahft/market_data/flat_order_map.hpp:118-133 | under either comparison, an erase leaves all other entries findable and at their addresses exactly when no other probe path crosses the erased slot |
| FlatOrderMaps.FlatOrderMap.constructor | include/ultrahft/market_data/flat_order_map.hpp:36-43 | an empty map whose capacity is the least power of two at least the request, and whose slot of a key is the mixed key modulo that capacity |
| FlatOrderMaps.FlatOrderMap.Locate | include/ultrahft/market_data/flat_order_map.hpp:69-84 | the probe loop ends at the slot of the key, or at the first empty slot of its path, by a cyclic-distance measure |
| FlatOrderMaps.FlatOrderMap.Find | include/ultrahft/market_data/flat_order_map.hpp:88-106 | find is lookup in the finite map |
| FlatOrderMaps.FlatOrderMap.Insert | include/ultrahft/market_data/flat_order_map.hpp:68-85 | insert is map update and tells where the value is; the size changes only for a new key; no entry of another key moves |
| FlatOrderMaps.FlatOrderMap.Store | include/ultrahft/market_data/flat_order_map.hpp:72-82 | one slot is written, every other slot is as before |
| FlatOrderMaps.FlatOrderMap.PullBack | include/ultrahft/market_data/flat_order_map.hpp:120-133 | the in-place shift loop terminates on every table and computes the shift specification |
| FlatOrderMaps.FlatOrderMap.Erase | include/ultrahft/market_data/flat_order_map.hpp:109-135 | erase is map removal and tells whether the key was there; the table is sound afterwards always (non-strict), or exactly when nothing is stranded (strict), on full tables too |
| FlatOrderMaps.FlatOrderMap.EraseAt | include/ultrahft/market_data/flat_order_map.hpp:117-134 | the deletion once the slot is known: one key less, size one less, the table the shift specification gives, sound exactly as above |
| FlatOrderMaps.FlatOrderMap.Clear | include/ultrahft/market_data/flat_order_map.hpp:141-144 | the map is empty and sound |
| Orders.Order.constructor | include/ultrahft/market_data/order.hpp:25-27 | a new order is unlinked and has its whole quantity remaining |
| Orders.Order.CopyOf | include/ultrahft/market_data/flat_order_map.hpp:74 | the stored copy carries every value of the original |
| PriceLevels.PriceLevel.constructor | include/ultrahft/market_data/price_level.hpp:14-15 | an empty, well-linked level |
| PriceLevels.PriceLevel.AddOrder | include/ultrahft/market_data/price_level.hpp:34-45 | the doubly linked list stays well formed and gains the order at its tail |
| PriceLevels.PriceLevel.RemoveOrder | include/ultrahft/market_data/price_level.hpp:47-58 | removing a head, middle, tail or sole order keeps the list well formed and the others in order |
| PriceLevels.PriceLevel.GetTotalQty | include/ultrahft/market_data/price_level.hpp:23-29 | the sum of the remaining quantities of the linked orders modulo 2^32 |
| BookModel.RunHasUniqueIds | include/ultrahft/market_data/order_book.hpp:62-112 | over every run an id is live at most once |
| BookModel.SharesAreConserved | include/ultrahft/market_data/order_book.hpp:62-112 | over every run: shares accepted = shares executed + shares still live + shares remaining when cancelled |
| BookModel.ApplyConserves | include/ultrahft/market_data/order_book.hpp:62-112 | the same balance for each operation on any book |
| BookModel.RemainingNeverGrows | include/ultrahft/market_data/order_book.hpp:62-112 | every order after an operation is the added one or an old one, unchanged but for exactly the executed shares |
| BookModel.ExecutionTakesTheLesser | include/ultrahft/market_data/order_book.hpp:99-112 | an execution returns the lesser of the shares asked for and the shares left, leaves the difference on the order, and takes the order out when nothing is left |
| BookModel.FlowsByKind | include/ultrahft/market_data/order_book.hpp:62-112 | each operation of a run adds to one of the three share counts only, and by how much |
| BookModel.CancelAfterWrite | include/ultrahft/market_data/order_book.hpp:108-110 | cancelling a filled order removes that order and no other |
| BookModel.RunIsInArrivalOrder | include/ultrahft/market_data/order_book.hpp:62-112 | time priority: over every run live orders stand in the order of their accepted adds |
| BookModel.LevelMembers | include/ultrahft/market_data/price_level.hpp:34-45 | a level queue lists exactly the live orders of its side and price |
| BookModel.LevelInArrivalOrder | include/ultrahft/market_data/price_level.hpp:34-58 | price-time priority: over every run each level queue stands strictly in the order of the adds accepted for its orders |
| BookModel.CancelClosesLevel | include/ultrahft/market_data/price_level.hpp:47-58 | removing an order closes its own queue up and leaves every other queue alone |
| BookModel.BestIsUnique | include/ultrahft/market_data/order_book.hpp:114-122 | the best price of a side is determined by the live orders |
| BookModel.BestIsHighestBidLowestAsk | include/ultrahft/market_data/order_book.hpp:114-122 | best means the highest price of the live buys, the lowest of the live sells, none when there are none |
| BookSides.LowerBound | include/ultrahft/market_data/order_book.hpp:40-41 | the partition point of the sorted level vector |
| BookSides.FindLevel | include/ultrahft/market_data/order_book.hpp:89-90 | the level with the price, or the end |
| BookSides.FindOrInsert | include/ultrahft/market_data/order_book.hpp:36-44 | the vector stays strictly sorted and gains at most the one level asked for |
| BookSides.AddToSide | include/ultrahft/market_data/order_book.hpp:69-77 | the side lists exactly the live orders with the new one last at its price |
| BookSides.RemoveFromSide | include/ultrahft/market_data/order_book.hpp:88-94 | the side lists exactly the remaining live orders, and no level is left empty |
| BookSides.QtyAt | include/ultrahft/market_data/order_book.hpp:124-134 | the quantity at a price is that of the live orders there modulo 2^32, 0 without a level |
| BookSides.OrderStandsOnce | include/ultrahft/market_data/order_book.hpp:69-77 | each live order stands in exactly one list, once |
| BookSides.ListedAreLive | include/ultrahft/market_data/order_book.hpp:69-77 | no other order stands in any list; each list is the level queue of the abstract book |
| OrderBooks.IndexFinds | include/ultrahft/market_data/order_book.hpp:82 | an id is in the index exactly when it is live, and the index returns that order |
| OrderBooks.FrontIsBest | include/ultrahft/market_data/order_book.hpp:114-122 | the front of a sorted side is the best price over its live orders, none when the side is empty |
| OrderBooks.OrderBook.LevelsInOrder | include/ultrahft/market_data/order_book.hpp:29-31 | bids strictly descend, asks strictly ascend, and no level is empty |
| OrderBooks.OrderBook.constructor | include/ultrahft/market_data/order_book.hpp:47-52 | an empty book satisfying the joint invariant |
| OrderBooks.OrderBook.AddOrder | include/ultrahft/market_data/order_book.hpp:62-79 | refused for null or a live id; otherwise the order joins the book as its last, with its id, instrument, side, price and quantities, also into the last free slot; index, lists and vectors agree |
| OrderBooks.OrderBook.CancelOrder | include/ultrahft/market_data/order_book.hpp:81-97 | takes out exactly the order of the id, true exactly when it was live; index, lists and vectors agree |
| OrderBooks.OrderBook.ExecuteOrder | include/ultrahft/market_data/order_book.hpp:99-112 | returns the lesser of the request and the remainder, lowers exactly that order by it, and takes the order out when nothing is left; 0 and no change for an unknown id |
| OrderBooks.OrderBook.BestBid | include/ultrahft/market_data/order_book.hpp:114-117 | the price of some live buy that no live buy exceeds, none exactly when there is no live buy |
| OrderBooks.OrderBook.BestAsk | include/ultrahft/market_data/order_book.hpp:119-122 | the price of some live sell that no live sell undercuts, none exactly when there is no live sell |
| OrderBooks.OrderBook.GetBidQtyAt | include/ultrahft/market_data/order_book.hpp:124-128 | the remaining quantity of the live buys at a price modulo 2^32 |
| OrderBooks.OrderBook.GetAskQtyAt | include/ultrahft/market_data/order_book.hpp:130-134 | the remaining quantity of the live sells at a price modulo 2^32 |
| OrderBooks.OrderBook.OrderCount | include/ultrahft/market_data/order_book.hpp:136 | the number of live orders |
| SpscSteps.FullTestIsExact | include/ultrahft/core/ring_buffer.hpp:30-35 | on any stale view of head, the modular test says full exactly when that view leaves N-1 elements, and otherwise there is room now |
| SpscSteps.EmptyTestIsExact | include/ultrahft/core/ring_buffer.hpp:44-49 | on any stale view of tail, the modular test says empty exactly when that view has nothing left, and otherwise there is an element now |
| SpscSteps.StepKeepsInv | include/ultrahft/core/ring_buffer.hpp:28-54 | each load, test, slot access and store of either side keeps the invariant |
| SpscSteps.RunKeepsInv | include/ultrahft/core/ring_buffer.hpp:28-54 | the invariant holds in every state of every interleaving, with stale but monotone views |
| SpscSteps.FirstInFirstOut | include/ultrahft/core/ring_buffer.hpp:28-54 | in every reachable state the popped sequence is a prefix of the pushed one and the rest, at most N-1 elements, is what the ring holds in order |
| SpscSteps.NoSlotIsShared | include/ultrahft/core/ring_buffer.hpp:37-52 | the slot being written is never the slot being read, and an element being read was published before the snapshot |
| SpscSteps.PushOutcome | include/ultrahft/core/ring_buffer.hpp:32-35 | a push fails exactly when its view of the ring is full; with a current view, exactly on N-1 elements; with N = 1, always |
| SpscSteps.PopOutcome | include/ultrahft/core/ring_buffer.hpp:46-49 | a pop fails exactly when everything published up to its snapshot had been taken |
| SpscSteps.PushRun | include/ultrahft/core/ring_buffer.hpp:28-40 | the uninterrupted steps of a push, each enabled in turn, lead to the state with the element appended, or on a ring of N-1 back to rest |
| SpscSteps.PopRun | include/ultrahft/core/ring_buffer.hpp:42-54 | the uninterrupted steps of a pop, each enabled in turn, lead to the state without its oldest element, or on an empty ring back to rest |
| SpscQueues.SpscQueue.constructor | include/ultrahft/core/ring_buffer.hpp:15-21 | an empty queue |
| SpscQueues.SpscQueue.Push | include/ultrahft/core/ring_buffer.hpp:28-40 | uninterrupted push is a bounded-queue append, refused exactly on N-1 elements |
| SpscQueues.SpscQueue.Pop | include/ultrahft/core/ring_buffer.hpp:42-54 | uninterrupted pop takes the oldest element, none exactly on an empty queue |
| WheelModel.ScanIsSweep | include/ultrahft/core/timer_wheel.hpp:132-143 | the element-by-element scan, callbacks re-entering the wheel and even the list being scanned, equals running the due timers of the bucket at once, wherever none loops |
| WheelModel.SafeElsewhere | include/ultrahft/core/timer_wheel.hpp:86-101 | an interval whose tick count is not a multiple of the wheel size re-enters another bucket |
| WheelLaws.NeverARevolutionLate | include/ultrahft/core/timer_wheel.hpp:57-149 | after a tick(now) that returns no pending timer is a revolution or more past the later of its scheduling time and its expiry |
| WheelLaws.NeverEarly | include/ultrahft/core/timer_wheel.hpp:136 | no timer is ever called by a tick whose time is below its expiry |
| WheelLaws.TickTime | include/ultrahft/core/timer_wheel.hpp:129-145 | the wheel time moves in whole milliseconds to the first of its steps beyond now, and never back |
| WheelLaws.RunKeepsInv | include/ultrahft/core/timer_wheel.hpp:57-177 | well-formedness and the lateness bound hold over every run whose ticks return |
| WheelExact.TickConserves | include/ultrahft/core/timer_wheel.hpp:125-149 | a tick neither loses nor duplicates a timer: it moves it from pending to called |
| WheelExact.AlignedTickIsExact | include/ultrahft/core/timer_wheel.hpp:125-149 | with tick-aligned expiries not in the past, a tick that returns calls exactly the pending timers with expiry <= now and leaves exactly the rest |
| WheelExact.AlignedTickIsInOrder | include/ultrahft/core/timer_wheel.hpp:125-149 | over less than a revolution the calls of a tick that returns come in expiry order, ties in scheduling order |
| WheelExact.CallsInExpiryOrder | include/ultrahft/core/timer_wheel.hpp:125-149 | the same of any two calls: the earlier is for the earlier expiry, or for the same expiry and the smaller id |
| WheelExact.ApplyKeepsQueued | include/ultrahft/core/timer_wheel.hpp:57-177 | every operation keeps each bucket in scheduling order |
| WheelExact.ApplyKeepsAligned | include/ultrahft/core/timer_wheel.hpp:57-177 | every operation on the grid keeps the wheel on the grid |
| WheelRecurring.ScheduledRecurs | include/ultrahft/core/timer_wheel.hpp:86-101 | a recurring timer just scheduled on the grid starts the recurrence |
| WheelRecurring.RecurringRunsOnSchedule | include/ultrahft/core/timer_wheel.hpp:86-149 | after tick(now) an aligned recurring timer has run exactly floor((now - start) / interval) times, over any earlier ticks and among any other timers |
| WheelRecurring.RecurringOverRun | include/ultrahft/core/timer_wheel.hpp:57-149 | the same count over every run that, after scheduling the timer, schedules other timers, cancels other ids and ticks |
| WheelRecurring.ApplyKeepsRecurs | include/ultrahft/core/timer_wheel.hpp:57-149 | each operation that is not about the timer keeps its recurrence |
| WheelRecurring.RunKeepsIds | include/ultrahft/core/timer_wheel.hpp:57-117 | over every run an id belongs to at most one timer, pending or called |
| WheelRecurring.ScheduledIsCalled | include/ultrahft/core/timer_wheel.hpp:57-64 | on the grid, the id schedule returns is called by a tick(now) exactly when the wheel time then plus the duration is at most now |
| WheelRecurring.ScheduledAtIsCalled | include/ultrahft/core/timer_wheel.hpp:72-78 | the id schedule_at returns, exactly when its absolute time is at most now |
| WheelRecurring.RecurringIsCalled | include/ultrahft/core/timer_wheel.hpp:86-101 | the id schedule_recurring returns, exactly when the wheel time then plus the interval is at most now |
| WheelRecurring.CancelCounts | include/ultrahft/core/timer_wheel.hpp:108-118 | cancel removes exactly one pending timer of the id, or nothing when there is none |
| WheelRecurring.CalledIdCancelsNothing | include/ultrahft/core/timer_wheel.hpp:108-118 | the id returned by schedule_recurring cancels nothing once the timer has run |
| WheelRecurring.SpentIdCancelsNothing | include/ultrahft/core/timer_wheel.hpp:84-118 | a reachable wheel on which the id returned by schedule_recurring cancels nothing while the renewal is pending |
| WheelReturns.TickReturnsIff | include/ultrahft/core/timer_wheel.hpp:125-149 | over all rounds of both loops, tick(now) returns exactly when no timer of the wheel loops at the next visit to its bucket, and then its result is the abstract tick |
| WheelReturns.SafeRunReturns | include/ultrahft/core/timer_wheel.hpp:57-149 | over every run that schedules only intervals that are no whole number of revolutions, every tick returns |
| WheelReturns.WithinRevolutionIsSafe | include/ultrahft/core/timer_wheel.hpp:86-101 | every interval from one tick up to less than a revolution is of that kind |
| WheelReturns.WholeRevolutionLoops | include/ultrahft/core/timer_wheel.hpp:86-101 | on a new wheel with one recurring timer of a whole revolution, tick(now) returns exactly before its expiry |
| WheelReturns.RoundsNeverEarly | include/ultrahft/core/timer_wheel.hpp:136 | in any number of rounds, of a tick that returns or not, no timer is called before its expiry |
| WheelReturns.RoundsConserve | include/ultrahft/core/timer_wheel.hpp:125-149 | and none is lost or duplicated |
| WheelReturns.ScanEndsIff | include/ultrahft/core/timer_wheel.hpp:135-143 | tick gets past the bucket it is scanning exactly when no due recurring timer in it re-enters it already due |
| WheelReturns.LoopNeverEnds | include/ultrahft/core/timer_wheel.hpp:135-143 | one looping timer ahead, and in any number of rounds the wheel time never passes the visit to its bucket |
| TimerWheels.TimerWheel.constructor | include/ultrahft/core/timer_wheel.hpp:44-49 | an empty wheel at time 0, first id 1 |
| TimerWheels.TimerWheel.Schedule | include/ultrahft/core/timer_wheel.hpp:57-64 | the bucket of the wheel time plus the duration gains exactly that timer at its end, with a new id; no other bucket changes |
| TimerWheels.TimerWheel.ScheduleAt | include/ultrahft/core/timer_wheel.hpp:72-78 | the bucket of the absolute time gains exactly that timer at its end, with a new id; no other bucket changes |
| TimerWheels.TimerWheel.ScheduleRecurring | include/ultrahft/core/timer_wheel.hpp:86-101 | the bucket of the wheel time plus the interval gains exactly that timer at its end, with a new id; no other bucket changes |
| TimerWheels.TimerWheel.RunCallback | include/ultrahft/core/timer_wheel.hpp:86-101 | one call is made, and a recurring timer schedules itself an interval after the wheel time, under a new id |
| TimerWheels.TimerWheel.Cancel | include/ultrahft/core/timer_wheel.hpp:108-118 | takes exactly one timer of the id out of its list, true exactly when one was pending |
| TimerWheels.TimerWheel.ScanBucket | include/ultrahft/core/timer_wheel.hpp:132-143 | the inner loop terminates wherever no timer of the bucket loops, and equals the sweep of the bucket |
| TimerWheels.TimerWheel.Tick | include/ultrahft/core/timer_wheel.hpp:125-149 | on exactly the wheels on which the loops return, terminates, refines the abstract tick and returns the number of calls made |
| TimerWheels.TimerWheel.PendingCount | include/ultrahft/core/timer_wheel.hpp:161-167 | the number of pending timers |
| TimerWheels.TimerWheel.Clear | include/ultrahft/core/timer_wheel.hpp:172-177 | no timers, time 0, ids go on |
| MoldUdp64.ParseMoldUdp64 | tools/udp_receiver.py:55-72 | the Python loop computes the parse specification on every byte string |
| MoldUdp64.FrameHeader | tools/itch_sender.py:99-103 | a frame is built exactly when its numbers fit their fields, and its header reads back as the ten characters of the session, sequence number and count |
| MoldUdp64.NetworkOrder16 | tools/udp_receiver.py:22-23 | two-byte numbers are written and read most significant byte first |
| MoldUdp64.NetworkOrder32 | tools/udp_receiver.py:25-26 | four-byte numbers too |
| MoldUdp64.NetworkOrder64 | tools/udp_receiver.py:28-29 | eight-byte numbers too |
| MoldUdp64.ParseIsTheOnlyReading | tools/udp_receiver.py:55-72 | the parse is the one list of non-empty messages that the payload spells out and that ends only where no complete block follows |
| MoldUdp64.ParseBuilt | tools/itch_sender.py:99-103 | parsing a built frame yields the messages up to the first empty one |
| MoldUdp64.RoundTripIff | tools/itch_sender.py:99-103 | for every frame that can be built, parse after build is the identity exactly when no message is empty |
| MoldUdp64.EmptyMessageIsLost | tools/udp_receiver.py:68 | a frame of one empty message parses to no message |
| UdpPackets.ExtractExactly | include/ultrahft/market_data/dpdk_packet_handler.hpp:250-302 | extraction returns (offset, length) exactly when the packet is the encoding of a legal Ethernet, optional VLAN tag, IPv4, UDP packet with its payload there |
| UdpPackets.ExtractEncoded | include/ultrahft/market_data/dpdk_packet_handler.hpp:250-302 | for every legal packet, any header length and any trailer, extraction finds exactly the payload |
| UdpPackets.ExtractInBounds | include/ultrahft/market_data/dpdk_packet_handler.hpp:250-302 | whatever is extracted lies inside the packet |
| UdpPackets.PortOfExtracted | examples/market_data_pipeline_demo.cpp:33-45 | the port filter reads the two bytes six before the extracted payload |
| UdpPackets.EndToEnd | include/ultrahft/market_data/dpdk_packet_handler.hpp:250-302 | a frame in any legal packet is extracted whole and parsed to the messages the sender framed |
| ItchLayout.PackedDecodes | include/ultrahft/market_data/itch_messages.hpp:36-137 | each message packed field by field, with anything after it, decodes to what it means, and its event carries its timestamp |
| ItchLayout.TruncatedFails | include/ultrahft/market_data/itch_messages.hpp:131-137 | a packed message cut short anywhere decodes to nothing |
| ItchLayout.DecodesExactly | include/ultrahft/market_data/itch_messages.hpp:36-137 | a byte string decodes to a message exactly when it begins with one of the packed structures, and then to what that structure means |
| ItchLayout.LittleEndian32 | include/ultrahft/market_data/itch_messages.hpp:36-137 | the four-byte fields are read least significant byte first |
| ItchLayout.LittleEndian64 | include/ultrahft/market_data/itch_messages.hpp:36-137 | the eight-byte fields too |
| HandlerModel.ReactionByKind | include/ultrahft/market_data/market_data_handler.hpp:64-146 | for each kind of message: the book afterwards, whether an event is raised, and the kind, instrument, timestamp and data it carries |
| HandlerModel.StepByKind | include/ultrahft/market_data/market_data_handler.hpp:154-204 | fewer than three bytes change nothing, undecodable bytes are only counted, a message does what its kind does |
| HandlerModel.CountersAgree | include/ultrahft/market_data/market_data_handler.hpp:154-204 | over every stream total_messages is the number of messages of at least three bytes, messages_processed the number of events raised, and the latter never exceeds the former |
| HandlerModel.QuietLeavesBook | include/ultrahft/market_data/market_data_handler.hpp:64-146 | a message that raises no event leaves the book unchanged |
| HandlerModel.FeedConcat | include/ultrahft/market_data/market_data_handler.hpp:154-204 | processing a stream is processing its parts in turn, and earlier events stay a prefix |
| HandlerModel.MessageCount | include/ultrahft/market_data/market_data_handler.hpp:64-132 | how one message changes the number of live orders |
| HandlerModel.PendingIsTurnover | include/ultrahft/market_data/market_data_handler.hpp:64-146 | over every stream pending_orders is the accepted adds less the orders removed by cancel, delete, replace or full execution |
| HandlerModel.TurnoverIsInEvents | include/ultrahft/market_data/market_data_handler.hpp:64-146 | the accepted adds are exactly the add events, and the removals lie between the cancel and delete events and those with the replace and execution events |
| MarketDataHandlers.SenderToDispatch | examples/market_data_pipeline_demo.cpp:48-68 | the messages dispatched for a legal packet are exactly the sender's; only an empty frame is taken for one raw message |
| MarketDataHandlers.DispatchedByParse | examples/market_data_pipeline_demo.cpp:48-68 | a payload without parsed messages, whatever its length, is one raw message; one shorter than a header always is |
| MarketDataHandlers.MarketDataHandler.constructor | include/ultrahft/market_data/market_data_handler.hpp:48-52 | an empty handler |
| MarketDataHandlers.MarketDataHandler.RegisterCallback | include/ultrahft/market_data/market_data_handler.hpp:57-59 | a new callback has been handed nothing; the others are as before |
| MarketDataHandlers.MarketDataHandler.FireCallback | include/ultrahft/market_data/market_data_handler.hpp:234-242 | every callback has been handed exactly the events since its registration, in order |
| MarketDataHandlers.MarketDataHandler.ProcessAddOrder | include/ultrahft/market_data/market_data_handler.hpp:64-76 | an add of an id not live enters exactly its order, on its side, at its price, with its shares and the handler's instrument, and raises one add event; any other add changes nothing |
| MarketDataHandlers.MarketDataHandler.ProcessExecuteOrder | include/ultrahft/market_data/market_data_handler.hpp:81-97 | a live order is lowered by the lesser of shares and remainder, or taken out, with one execution event; without shares to take nothing changes |
| MarketDataHandlers.MarketDataHandler.ProcessCancelOrder | include/ultrahft/market_data/market_data_handler.hpp:102-109 | a live order is taken out whole with one cancel event; otherwise nothing changes |
| MarketDataHandlers.MarketDataHandler.ProcessDeleteOrder | include/ultrahft/market_data/market_data_handler.hpp:114-121 | a live order is taken out with one delete event; otherwise nothing changes |
| MarketDataHandlers.MarketDataHandler.ProcessReplaceOrder | include/ultrahft/market_data/market_data_handler.hpp:126-132 | the old order leaves, no new one comes, and an event is always raised |
| MarketDataHandlers.MarketDataHandler.ProcessTrade | include/ultrahft/market_data/market_data_handler.hpp:137-146 | an event, and no change of the book |
| MarketDataHandlers.MarketDataHandler.ProcessMessage | include/ultrahft/market_data/market_data_handler.hpp:154-204 | book, counters and events follow one abstract step for any bytes; true exactly when they decode |
| MarketDataHandlers.MarketDataHandler.ProcessItchPayload | examples/market_data_pipeline_demo.cpp:48-68 | the handler is fed exactly the list the Python parser returns; when that list is empty, the raw payload as one message, whatever its length |
| MarketDataHandlers.MarketDataHandler.DispatchBlocks | examples/market_data_pipeline_demo.cpp:52-65 | the block loop feeds the parsed messages in order and tells whether there were any |
| MarketDataHandlers.MarketDataHandler.ProcessPacket | examples/market_data_pipeline_demo.cpp:146-153 | filtered or foreign packets change nothing; any other feeds the parsed messages of the extracted bytes, or those bytes as one raw message |
| MarketDataHandlers.MarketDataHandler.PendingOrders | include/ultrahft/market_data/market_data_handler.hpp:228-230 | the number of live orders |
| LatencySamples.BucketHolds | include/ultrahft/common/latency_histogram.hpp:109-115 | bucket b holds exactly the samples from 2^b up to 2^(b+1), bucket 0 also 0 |
| LatencySamples.RankInBucket | include/ultrahft/common/latency_histogram.hpp:82-88 | the cumulative count passes a rank at exactly the bucket of the sample of that rank in sorted order |
| LatencySamples.EdgeBrackets | include/ultrahft/common/latency_histogram.hpp:82-91 | the returned edge brackets the sample of the rank, and is an upper bound of it exactly when that sample is at most 1 or is the edge |
| LatencySamples.EdgeBelowSample | include/ultrahft/common/latency_histogram.hpp:86-87 | with the one sample 3 the value is 2, below the sample |
| LatencySamples.BelowOfPermutation | include/ultrahft/common/latency_histogram.hpp:82-88 | bucket counts do not depend on the order of the samples |
| LatencySamples.SortExists | include/ultrahft/common/latency_histogram.hpp:77-91 | every list of samples has a sorted order, so the percentile statement is never empty |
| LatencySamples.MeanIsAverageIff | include/ultrahft/common/latency_histogram.hpp:95-97 | dividing the wrapped sum gives the true average exactly when the sum fits in 64 bits |
| LatencySamples.MeanBetween | include/ultrahft/common/latency_histogram.hpp:95-97 | min <= mean <= max for a non-empty histogram whose sum does not wrap |
| LatencySamples.MeanOfWrappedSum | include/ultrahft/common/latency_histogram.hpp:95-97 | two samples of 2^63 have mean 0 |
| LatencyHistograms.LatencyHistogram.constructor | include/ultrahft/common/latency_histogram.hpp:55 | no samples |
| LatencyHistograms.LatencyHistogram.RecordNs | include/ultrahft/common/latency_histogram.hpp:58-64 | one more sample, all counters in agreement with the samples |
| LatencyHistograms.LatencyHistogram.RecordCycles | include/ultrahft/common/latency_histogram.hpp:67-75 | the converted sample, truncated to 64 bits; nothing for an unknown frequency |
| LatencyHistograms.LatencyHistogram.Percentile | include/ultrahft/common/latency_histogram.hpp:78-91 | v <= sample < 2v for the sample of the asked rank in any sorted order of the samples (sample <= 1 for v = 1); the maximum at or beyond the last rank |
| LatencyHistograms.LatencyHistogram.RankIsFloor | include/ultrahft/common/latency_histogram.hpp:80-81 | the rank asked for is the greatest at or below pct percent of the samples, past the last exactly from 100 on |
| LatencyHistograms.LatencyHistogram.MinNs | include/ultrahft/common/latency_histogram.hpp:93 | the least sample |
| LatencyHistograms.LatencyHistogram.MaxNs | include/ultrahft/common/latency_histogram.hpp:94 | the greatest sample |
| LatencyHistograms.LatencyHistogram.MeanNs | include/ultrahft/common/latency_histogram.hpp:95-97 | the floored average, between min and max, unless the sum wrapped; then it is too small |
| LatencyHistograms.LatencyHistogram.BucketsSumToTotal | include/ultrahft/common/latency_histogram.hpp:58-64 | the buckets always sum to the total |
| LatencyHistograms.LatencyHistogram.Reset | include/ultrahft/common/latency_histogram.hpp:100-106 | no samples |
| PoolAddresses.IndexOfIff | include/ultrahft/core/memory_pool.hpp:84-118 | a pointer resolves to a slot exactly when it is that slot's address: round trip, and null, foreign or misaligned pointers resolve to none |
| PoolAddresses.SlotsDisjoint | include/ultrahft/core/memory_pool.hpp:84-90 | distinct slots share no byte and lie inside the storage |
| PoolSlots.TakeTop | include/ultrahft/core/memory_pool.hpp:50-53 | handing out the top of the stack keeps the free list a duplicate-free listing of exactly the unoccupied slots |
| PoolSlots.GiveBack | include/ultrahft/core/memory_pool.hpp:68-71 | freeing a live slot keeps it so |
| PoolSlots.TakeThenGive | include/ultrahft/core/memory_pool.hpp:44-73 | freeing what was just allocated restores the pool |
| PoolSlots.FreeAndLive | include/ultrahft/core/memory_pool.hpp:75-77 | free slots and live slots together are the capacity |
| MemoryPools.MemoryPool.constructor | include/ultrahft/core/memory_pool.hpp:20-28 | all slots free, handed out in ascending order, whatever the bitmap was initialised to |
| MemoryPools.MemoryPool.Allocate | include/ultrahft/core/memory_pool.hpp:44-55 | the last freed slot, not live before and live after; none exactly when no slot is free |
| MemoryPools.MemoryPool.Deallocate | include/ultrahft/core/memory_pool.hpp:57-73 | frees exactly a live object's own address; null, foreign, misaligned and repeated frees change nothing |
| MemoryPools.MemoryPool.Accounts | include/ultrahft/core/memory_pool.hpp:75-77 | free_top_ + live_count_ = Capacity, and constructions less destructions = live_count_, in every state |
| MemoryPools.MemoryPool.LiveObjectsDisjoint | include/ultrahft/core/memory_pool.hpp:84-118 | live objects never overlap and each is found again at its address |
| MemoryPools.MemoryPool.Destroy | include/ultrahft/core/memory_pool.hpp:30-37 | after the destructor every constructed object has been destroyed once |

## Left out

- FlatOrderMaps.FlatOrderMap.Find: requires a free slot or the key present; without either the source's loop never ends.
- FlatOrderMaps.FlatOrderMap.constructor: requires a request of at most 2^63; beyond it the rounded capacity is 0 (NextPow2Overflows) and the source allocates nothing.
- FlatOrderMaps.FlatOrderMap.Erase: the mixing of the key bits is an arbitrary function; only the masking of its result is modelled.
- OrderBooks.OrderBook.AddOrder: requires a free slot or the id live; otherwise the source's search never ends.
- OrderBooks.OrderBook.CancelOrder: requires a free slot or the id live, as add does; and under the code's strict comparison that no other probe path cross the erased slot, because the book's lists hold addresses of map slots.
- OrderBooks.OrderBook.ExecuteOrder: requires the same, the latter only when the order is filled.
- MarketDataHandlers.MarketDataHandler.ProcessAddOrder: requires the message's book operation to be possible as above.
- MarketDataHandlers.MarketDataHandler.ProcessExecuteOrder: the same.
- MarketDataHandlers.MarketDataHandler.ProcessCancelOrder: the same.
- MarketDataHandlers.MarketDataHandler.ProcessDeleteOrder: the same.
- MarketDataHandlers.MarketDataHandler.ProcessReplaceOrder: the same.
- MarketDataHandlers.MarketDataHandler.ProcessMessage: requires the message's book operation to be possible as above.
- MarketDataHandlers.MarketDataHandler.ProcessItchPayload: is stated for the non-strict comparison and a slot for each of its messages, since no condition on the slots can be given ahead of a list of messages.
- MarketDataHandlers.MarketDataHandler.DispatchBlocks: the same.
- MarketDataHandlers.MarketDataHandler.ProcessPacket: the same.
- MarketDataHandlers.MarketDataHandler.FireCallback: callbacks only receive events; callbacks that throw or re-enter the handler are not modelled.
- TimerWheels.TimerWheel.Tick: requires that the tick return; on all other wheels the source's loops never end (TickReturnsIff).
- TimerWheels.TimerWheel.ScheduleRecurring: user callbacks do nothing but be called; the only re-entry is the wheel's own renewal.
- WheelLaws.RunKeepsInv: speaks of runs whose ticks return; wheel times and ids are unbounded, their 64-bit wrap-around is not modelled.
- WheelRecurring.RunKeepsIds: is about the abstract tick also where the code's does not return, and says nothing of the code there.
- WheelExact.TickConserves: the same; RoundsConserve covers those ticks.
- WheelLaws.NeverEarly: the same; RoundsNeverEarly covers those ticks.
- WheelRecurring.RecurringRunsOnSchedule: is about intervals of at least one tick and less than a revolution, on the tick grid; a longer timer is called at an earlier visit whenever one tick spans it.
- SpscQueues.SpscQueue.Push: is the uninterrupted case; all interleavings are in SpscSteps.RunKeepsInv. Acquire and release are modelled as per-location coherence: a load may return any value not older than the last one seen.
- HandlerModel.CountersAgree: the 64-bit counters are unbounded.
- LatencyHistograms.LatencyHistogram.Percentile: the rank is computed with real numbers, without floating-point rounding, for percentiles of at least 0.
- LatencyHistograms.LatencyHistogram.RankIsFloor: the same.
- LatencyHistograms.LatencyHistogram.RecordNs: requires fewer than 2^64 - 1 samples, so that no counter wraps; the sum does wrap.
- MemoryPools.MemoryPool.Allocate: element constructors that throw, after the free list has been popped, are not modelled; nor are the object values.
- UdpPackets.ExtractExactly: a packet is a byte string; a null packet pointer is not modelled.
- Move operations, `reset` of the handler, and the plain getters: easy members.
- `memory_pool_1.hpp`: a near copy of the memory pool.
- DPDK set-up, bursts and mbufs, sockets, signals, printing, clocks, rate limiting and random message generation: input and output.
- `parse_itch_message`, the message builders and the system-event types that the handler ignores: field layouts with no state.
- Latency, cache and complexity claims, padding and alignment.

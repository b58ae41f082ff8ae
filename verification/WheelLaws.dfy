/** What every tick of the timer wheel keeps and guarantees. */
module WheelLaws {
  import opened Lists
  import opened Remainders
  import opened SlotArithmetic
  import opened WheelModel

  function Advance(w: Wheel): Wheel {
    w.(current := w.current + TICK)
  }

  /** tick(now): sweep one bucket after another until the wheel time has passed `now`. On the wheels
      on which tick does not return, see Returns, this is not what the code does. */
  function Tick(w: Wheel, now: nat): (r: Wheel)
    requires w.Size() > 0
    ensures r.Size() == w.Size() && r.current > now
    decreases if w.current <= now then now - w.current + 1 else 0
  {
    if w.current > now then w else Tick(Advance(Sweep(w, now)), now)
  }

  /** The wheel time moves in whole milliseconds, to the first of its steps beyond `now`, and never back. */
  lemma {:induction false} TickTime(w: Wheel, now: nat)
    requires w.Size() > 0
    ensures if w.current > now then Tick(w, now) == w else now < Tick(w, now).current <= now + 1_000_000
    ensures Tick(w, now).current % 1_000_000 == w.current % 1_000_000
    decreases if w.current <= now then now - w.current + 1 else 0
  {
    if w.current <= now {
      TickTime(Advance(Sweep(w, now)), now);
      assert (w.current + 1_000_000) % 1_000_000 == w.current % 1_000_000;
    }
  }

  /** The position of the first timer with this id in a list, or its length. */
  function PositionIn(list: seq<Timer>, id: nat): (i: nat)
    ensures i <= |list| && (i < |list| ==> list[i].id == id)
    ensures forall k :: 0 <= k < i ==> list[k].id != id
  {
    if list == [] || list[0].id == id then 0 else 1 + PositionIn(list[1..], id)
  }

  /** The first bucket at or after j that holds the id, or the number of buckets. */
  function BucketWith(buckets: seq<seq<Timer>>, id: nat, j: nat): (b: nat)
    requires j <= |buckets|
    ensures j <= b <= |buckets|
    ensures b < |buckets| ==> PositionIn(buckets[b], id) < |buckets[b]|
    ensures forall k :: j <= k < b ==> PositionIn(buckets[k], id) == |buckets[k]|
    decreases |buckets| - j
  {
    if j == |buckets| || PositionIn(buckets[j], id) < |buckets[j]| then j else BucketWith(buckets, id, j + 1)
  }

  /** cancel: take out the first timer with this id. */
  function Cancel(w: Wheel, id: nat): Wheel {
    var b := BucketWith(w.buckets, id, 0);
    if b == w.Size() then w else Replace(w, b, DropAt(w.buckets[b], PositionIn(w.buckets[b], id)))
  }

  function Clear(w: Wheel): Wheel {
    w.(buckets := seq(w.Size(), _ => []), current := 0)
  }

  datatype Op =
    | DoSchedule(duration: nat, tag: nat)
    | DoScheduleAt(time: nat, tag: nat)
    | DoScheduleRecurring(interval: nat, tag: nat)
    | DoCancel(id: nat)
    | DoTick(now: nat)
    | DoClear

  function Apply(w: Wheel, op: Op): (r: Wheel)
    requires w.Size() > 0
    ensures r.Size() == w.Size()
  {
    match op
    case DoSchedule(duration, tag) => Schedule(w, duration, tag)
    case DoScheduleAt(time, tag) => ScheduleAt(w, time, tag)
    case DoScheduleRecurring(interval, tag) => ScheduleRecurring(w, interval, tag)
    case DoCancel(id) => Cancel(w, id)
    case DoTick(now) => Tick(w, now)
    case DoClear => Clear(w)
  }

  function Start(size: nat): Wheel {
    Wheel(seq(size, _ => []), 0, 1, [])
  }

  function Run(size: nat, ops: seq<Op>): (r: Wheel)
    requires size > 0
    ensures r.Size() == size
  {
    if ops == [] then Start(size) else Apply(Run(size, ops[..|ops|-1]), ops[|ops|-1])
  }

  // ---------- the parts of a swept bucket

  lemma {:induction false} DueIsPart(list: seq<Timer>, now: nat)
    ensures forall t :: t in Due(list, now) ==> t in list && t.expire <= now
    ensures forall t :: t in Rest(list, now) ==> t in list && t.expire > now
    ensures multiset(list) == multiset(Due(list, now)) + multiset(Rest(list, now))
  {
    if list != [] {
      DueIsPart(list[1..], now);
      assert list == [list[0]] + list[1..];
    }
  }

  // ---------- well-formed wheels

  /** Every timer sits in the bucket its expiry selects. */
  ghost predicate Fits(w: Wheel, j: nat)
    requires j < w.Size()
  {
    forall t :: t in w.buckets[j] ==> BucketOf(t.expire, w.Size()) == j
  }

  ghost predicate WellFormed(w: Wheel) {
    && w.Size() > 0 && w.current % TICK == 0
    && forall j :: 0 <= j < w.Size() ==> Fits(w, j)
  }

  lemma EnqueueKeepsForm(w: Wheel, t: Timer)
    requires WellFormed(w)
    ensures WellFormed(Enqueue(w, t))
  {
    forall j | 0 <= j < w.Size()
      ensures Fits(Enqueue(w, t), j)
    {
      assert Fits(w, j);
    }
  }

  lemma ReplaceKeepsForm(w: Wheel, b: nat, list: seq<Timer>)
    requires WellFormed(w) && b < w.Size() && forall t :: t in list ==> t in w.buckets[b]
    ensures WellFormed(Replace(w, b, list))
  {
    forall j | 0 <= j < w.Size()
      ensures Fits(Replace(w, b, list), j)
    {
      assert Fits(w, j);
    }
  }

  lemma InvokeKeepsForm(w: Wheel, t: Timer, now: nat)
    requires WellFormed(w)
    ensures WellFormed(Invoke(w, t, now))
  {
    var logged := w.(calls := w.calls + [Call(t, now)]);
    assert forall j :: 0 <= j < w.Size() ==> Fits(w, j) == Fits(logged, j);
    if t.callback.Every? {
      EnqueueKeepsForm(logged, Timer(w.nextId, w.current + t.callback.interval, t.callback, w.current));
    }
  }

  lemma {:induction false} InvokeAllKeepsForm(w: Wheel, due: seq<Timer>, now: nat)
    requires WellFormed(w)
    ensures WellFormed(InvokeAll(w, due, now))
    decreases |due|
  {
    if due != [] {
      InvokeKeepsForm(w, due[0], now);
      InvokeAllKeepsForm(Invoke(w, due[0], now), due[1..], now);
    }
  }

  lemma SweepKeepsForm(w: Wheel, now: nat)
    requires WellFormed(w)
    ensures WellFormed(Sweep(w, now))
  {
    var b := BucketOf(w.current, w.Size());
    DueIsPart(w.buckets[b], now);
    ReplaceKeepsForm(w, b, Rest(w.buckets[b], now));
    InvokeAllKeepsForm(Replace(w, b, Rest(w.buckets[b], now)), Due(w.buckets[b], now), now);
  }

  lemma {:induction false} TickKeepsForm(w: Wheel, now: nat)
    requires WellFormed(w)
    ensures WellFormed(Tick(w, now))
    decreases if w.current <= now then now - w.current + 1 else 0
  {
    if w.current <= now {
      SweepKeepsForm(w, now);
      AdvanceKeepsForm(Sweep(w, now));
      TickKeepsForm(Advance(Sweep(w, now)), now);
    }
  }

  lemma AdvanceKeepsForm(w: Wheel)
    requires WellFormed(w)
    ensures WellFormed(Advance(w))
  {
    assert forall j :: 0 <= j < w.Size() ==> Fits(w, j) == Fits(Advance(w), j);
  }

  // ---------- ticks that return

  /** The next time at which bucket j will be swept. */
  function NextVisit(w: Wheel, j: nat): nat
    requires j < w.Size()
  {
    w.current + TICK * Dist(w.Size(), BucketOf(w.current, w.Size()), j)
  }

  ghost predicate BucketReturns(w: Wheel, j: nat, now: nat)
    requires j < w.Size()
  {
    NoneLoops(w.buckets[j], NextVisit(w, j), w.Size(), now)
  }

  /** No timer loops at the visit to its bucket. On exactly these wheels tick(now) returns. */
  ghost predicate Returns(w: Wheel, now: nat) {
    w.Size() > 0 && forall j :: 0 <= j < w.Size() ==> BucketReturns(w, j, now)
  }

  /** After a tick in wheel time only the bucket left behind is visited later than before. */
  lemma NextVisitLater(w: Wheel, j: nat)
    requires w.current % TICK == 0 && j < w.Size()
    ensures var b := BucketOf(w.current, w.Size());
            NextVisit(Advance(w), j) == if j == b then w.current + TICK * w.Size() else NextVisit(w, j)
  {
    var c, size := w.current / TICK, w.Size();
    assert (w.current + TICK) / TICK == c + 1;
    NextRemainder(c, size);
    var b := BucketOf(w.current, size);
    assert Dist(size, Next(size, b), j) == if j == b then size - 1 else Dist(size, b, j) - 1;
  }

  /** In the bucket being swept, what is left and what has been added is not due. */
  ghost predicate Quiet(w: Wheel, now: nat) {
    && Returns(w, now)
    && forall t :: t in w.buckets[BucketOf(w.current, w.Size())] ==> t.expire > now
  }

  lemma InvokeKeepsQuiet(w: Wheel, t: Timer, now: nat)
    requires Quiet(w, now) && w.current % TICK == 0
    requires t.expire <= now && !LoopsAt(t, w.current, w.Size(), now)
    ensures Quiet(Invoke(w, t, now), now)
  {
    var r, b := Invoke(w, t, now), BucketOf(w.current, w.Size());
    ReEnteredNotDue(w, t, now);
    InvokeReplaced(w, b, w.buckets[b], t, now);
    if t.callback.Every? {
      SafeElsewhere(w.current, t.callback.interval, w.Size());
    }
    forall j | 0 <= j < r.Size()
      ensures BucketReturns(r, j, now)
    {
      assert BucketReturns(w, j, now) && NextVisit(r, j) == NextVisit(w, j);
      InvokeReplaced(w, j, w.buckets[j], t, now);
    }
  }

  lemma {:induction false} InvokeAllKeepsQuiet(w: Wheel, due: seq<Timer>, now: nat)
    requires Quiet(w, now) && w.current % TICK == 0
    requires NoneLoops(due, w.current, w.Size(), now) && forall t :: t in due ==> t.expire <= now
    ensures Quiet(InvokeAll(w, due, now), now)
    decreases |due|
  {
    if due != [] {
      InvokeKeepsQuiet(w, due[0], now);
      InvokeAllKeepsQuiet(Invoke(w, due[0], now), due[1..], now);
    }
  }

  /** A sweep leaves nothing due in its bucket, and the rest of the tick free of loops. */
  lemma SweepKeepsReturns(w: Wheel, now: nat)
    requires w.current % TICK == 0 && Returns(w, now)
    ensures Quiet(Sweep(w, now), now) && Returns(Advance(Sweep(w, now)), now)
    ensures NoneLoops(w.buckets[BucketOf(w.current, w.Size())], w.current, w.Size(), now)
  {
    var b := BucketOf(w.current, w.Size());
    var left := Replace(w, b, Rest(w.buckets[b], now));
    assert BucketReturns(w, b, now);
    DueIsPart(w.buckets[b], now);
    forall j | 0 <= j < w.Size()
      ensures BucketReturns(left, j, now)
    {
      assert BucketReturns(w, j, now) && NextVisit(left, j) == NextVisit(w, j);
    }
    InvokeAllKeepsQuiet(left, Due(w.buckets[b], now), now);
    var r := Sweep(w, now);
    forall j | 0 <= j < r.Size()
      ensures BucketReturns(Advance(r), j, now)
    {
      assert BucketReturns(r, j, now);
      NextVisitLater(r, j);
    }
  }

  // ---------- lateness

  function Max(a: nat, b: nat): nat {
    if a >= b then a else b
  }

  ghost predicate OnTime(w: Wheel, j: nat)
    requires j < w.Size()
  {
    forall t :: t in w.buckets[j] ==> NextVisit(w, j) < Max(t.born, t.expire) + w.Size() * TICK
  }

  ghost predicate AllOnTime(w: Wheel) {
    forall j :: 0 <= j < w.Size() ==> OnTime(w, j)
  }

  lemma EnqueueOnTime(w: Wheel, t: Timer)
    requires w.Size() > 0 && AllOnTime(w) && t.born == w.current
    ensures AllOnTime(Enqueue(w, t))
  {
    forall j | 0 <= j < w.Size()
      ensures OnTime(Enqueue(w, t), j)
    {
      assert OnTime(w, j);
      assert NextVisit(Enqueue(w, t), j) == NextVisit(w, j);
    }
  }

  lemma ReplaceOnTime(w: Wheel, b: nat, list: seq<Timer>)
    requires AllOnTime(w) && b < w.Size() && forall t :: t in list ==> t in w.buckets[b]
    ensures AllOnTime(Replace(w, b, list))
  {
    forall j | 0 <= j < w.Size()
      ensures OnTime(Replace(w, b, list), j)
    {
      assert OnTime(w, j);
      assert NextVisit(Replace(w, b, list), j) == NextVisit(w, j);
    }
  }

  lemma InvokeOnTime(w: Wheel, t: Timer, now: nat)
    requires w.Size() > 0 && AllOnTime(w)
    ensures AllOnTime(Invoke(w, t, now))
  {
    var logged := w.(calls := w.calls + [Call(t, now)]);
    assert forall j :: 0 <= j < w.Size() ==> OnTime(w, j) == OnTime(logged, j);
    if t.callback.Every? {
      EnqueueOnTime(logged, Timer(w.nextId, w.current + t.callback.interval, t.callback, w.current));
    }
  }

  lemma {:induction false} InvokeAllOnTime(w: Wheel, due: seq<Timer>, now: nat)
    requires w.Size() > 0 && AllOnTime(w)
    ensures AllOnTime(InvokeAll(w, due, now))
    decreases |due|
  {
    if due != [] {
      InvokeOnTime(w, due[0], now);
      InvokeAllOnTime(Invoke(w, due[0], now), due[1..], now);
    }
  }

  /** Moving past a bucket whose remaining timers all expire after the current time. */
  lemma AdvanceOnTime(w: Wheel)
    requires WellFormed(w) && AllOnTime(w)
    requires forall t :: t in w.buckets[BucketOf(w.current, w.Size())] ==> t.expire > w.current
    ensures AllOnTime(Advance(w))
  {
    forall j | 0 <= j < w.Size()
      ensures OnTime(Advance(w), j)
    {
      assert OnTime(w, j);
      NextVisitLater(w, j);
    }
  }

  lemma {:induction false} TickOnTime(w: Wheel, now: nat)
    requires WellFormed(w) && AllOnTime(w) && Returns(w, now)
    ensures AllOnTime(Tick(w, now))
    decreases if w.current <= now then now - w.current + 1 else 0
  {
    if w.current <= now {
      var b := BucketOf(w.current, w.Size());
      DueIsPart(w.buckets[b], now);
      SweepKeepsForm(w, now);
      SweepKeepsReturns(w, now);
      ReplaceOnTime(w, b, Rest(w.buckets[b], now));
      InvokeAllOnTime(Replace(w, b, Rest(w.buckets[b], now)), Due(w.buckets[b], now), now);
      AdvanceOnTime(Sweep(w, now));
      AdvanceKeepsForm(Sweep(w, now));
      TickOnTime(Advance(Sweep(w, now)), now);
    }
  }

  /** No timer is ever more than one revolution late: after tick(now), anything still pending was
      scheduled, or expires, less than one revolution before `now`, for arbitrary expiries. */
  lemma NeverARevolutionLate(w: Wheel, now: nat)
    requires WellFormed(w) && AllOnTime(w) && Returns(w, now)
    ensures var r := Tick(w, now);
            forall j, t :: 0 <= j < r.Size() && t in r.buckets[j] ==> now < Max(t.born, t.expire) + r.Size() * TICK
  {
    var r := Tick(w, now);
    TickOnTime(w, now);
    forall j, t | 0 <= j < r.Size() && t in r.buckets[j]
      ensures now < Max(t.born, t.expire) + r.Size() * TICK
    {
      assert OnTime(r, j);
    }
  }

  // ---------- never early

  /** The calls made by tick(now) come after the earlier ones and are all for expired timers. */
  ghost predicate Extends(calls: seq<Call>, calls': seq<Call>, now: nat) {
    && calls <= calls'
    && forall k :: |calls| <= k < |calls'| ==> calls'[k].now == now && calls'[k].timer.expire <= now
  }

  lemma {:induction false} InvokeAllExtends(w: Wheel, due: seq<Timer>, now: nat)
    requires w.Size() > 0 && forall t :: t in due ==> t.expire <= now
    ensures Extends(w.calls, InvokeAll(w, due, now).calls, now)
    decreases |due|
  {
    if due != [] {
      InvokeAllExtends(Invoke(w, due[0], now), due[1..], now);
    }
  }

  /** No timer is ever run by a tick whose time is below its expiry. */
  lemma {:induction false} NeverEarly(w: Wheel, now: nat)
    requires w.Size() > 0
    ensures Extends(w.calls, Tick(w, now).calls, now)
    ensures forall k :: |w.calls| <= k < |Tick(w, now).calls| ==> Tick(w, now).calls[k].timer.expire <= now
    decreases if w.current <= now then now - w.current + 1 else 0
  {
    if w.current <= now {
      var b := BucketOf(w.current, w.Size());
      DueIsPart(w.buckets[b], now);
      InvokeAllExtends(Replace(w, b, Rest(w.buckets[b], now)), Due(w.buckets[b], now), now);
      NeverEarly(Advance(Sweep(w, now)), now);
    }
  }

  // ---------- every run

  ghost predicate Inv(w: Wheel) {
    WellFormed(w) && AllOnTime(w)
  }

  lemma CancelKeepsForm(w: Wheel, id: nat)
    requires WellFormed(w)
    ensures WellFormed(Cancel(w, id))
  {
    var b := BucketWith(w.buckets, id, 0);
    if b < w.Size() {
      ReplaceKeepsForm(w, b, DropAt(w.buckets[b], PositionIn(w.buckets[b], id)));
    }
  }

  lemma ClearKeepsForm(w: Wheel)
    requires WellFormed(w)
    ensures WellFormed(Clear(w))
  {
  }

  /** Every operation, ticks on any wheel included, leaves timers in the buckets of their expiries. */
  lemma ApplyKeepsForm(w: Wheel, op: Op)
    requires WellFormed(w)
    ensures WellFormed(Apply(w, op))
  {
    hide Fits, Enqueue;
    match op
    case DoSchedule(duration, tag) => EnqueueKeepsForm(w, Timer(w.nextId, w.current + duration, Once(tag), w.current));
    case DoScheduleAt(time, tag) => EnqueueKeepsForm(w, Timer(w.nextId, time, Once(tag), w.current));
    case DoScheduleRecurring(interval, tag) =>
      EnqueueKeepsForm(w, Timer(w.nextId, w.current + interval, Every(interval, tag), w.current));
    case DoCancel(id) => CancelKeepsForm(w, id);
    case DoTick(now) => TickKeepsForm(w, now);
    case DoClear => ClearKeepsForm(w);
  }

  lemma ApplyKeepsInv(w: Wheel, op: Op)
    requires Inv(w) && (op.DoTick? ==> Returns(w, op.now))
    ensures Inv(Apply(w, op))
  {
    ApplyKeepsForm(w, op);
    match op
    case DoSchedule(duration, tag) => EnqueueOnTime(w, Timer(w.nextId, w.current + duration, Once(tag), w.current));
    case DoScheduleAt(time, tag) => EnqueueOnTime(w, Timer(w.nextId, time, Once(tag), w.current));
    case DoScheduleRecurring(interval, tag) =>
      EnqueueOnTime(w, Timer(w.nextId, w.current + interval, Every(interval, tag), w.current));
    case DoCancel(id) =>
      var b := BucketWith(w.buckets, id, 0);
      if b < w.Size() {
        ReplaceOnTime(w, b, DropAt(w.buckets[b], PositionIn(w.buckets[b], id)));
      }
    case DoTick(now) => TickOnTime(w, now);
    case DoClear =>
  }

  /** Every tick of the run returns. */
  ghost predicate RunReturns(size: nat, ops: seq<Op>)
    requires size > 0
  {
    ops == []
    || (RunReturns(size, ops[..|ops|-1])
        && (ops[|ops|-1].DoTick? ==> Returns(Run(size, ops[..|ops|-1]), ops[|ops|-1].now)))
  }

  /** Over every run of scheduling, cancelling, ticking and clearing. */
  lemma {:induction false} RunKeepsInv(size: nat, ops: seq<Op>)
    requires size > 0 && RunReturns(size, ops)
    ensures Inv(Run(size, ops))
  {
    if ops != [] {
      RunKeepsInv(size, ops[..|ops|-1]);
      ApplyKeepsInv(Run(size, ops[..|ops|-1]), ops[|ops|-1]);
    }
  }
}

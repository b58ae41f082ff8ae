/** Recurring timers: how often they run, and what becomes of their ids. */
module WheelRecurring {
  import opened Lists
  import opened Remainders
  import opened WheelModel
  import opened WheelLaws
  import opened WheelExact

  // ---------- one run per interval

  ghost predicate TaggedAlike(list: seq<Timer>, tag: nat, interval: nat, expire: nat) {
    forall t :: t in list && t.callback.tag == tag ==> t.callback == Every(interval, tag) && t.expire == expire
  }

  ghost predicate TagBucket(w: Wheel, j: nat, tag: nat, interval: nat, expire: nat)
    requires j < w.Size()
  {
    TaggedAlike(w.buckets[j], tag, interval, expire)
  }

  ghost predicate TagBuckets(w: Wheel, tag: nat, interval: nat, expire: nat) {
    forall j :: 0 <= j < w.Size() ==> TagBucket(w, j, tag, interval, expire)
  }

  predicate GridInterval(interval: nat, size: nat) {
    interval % TICK == 0 && 0 < interval < size * TICK
  }

  /** A recurring timer that has run n times, last at `last` (or was scheduled then), is pending
      once, an interval later. */
  ghost predicate RecursFrom(w: Wheel, tag: nat, interval: nat, last: nat, n: nat) {
    && GridInterval(interval, w.Size()) && last % TICK == 0
    && Pending(w.buckets, Tagged(tag)) == 1 && Called(w.calls, Tagged(tag)) == n
    && TagBuckets(w, tag, interval, last + interval)
    && w.current <= last + interval < w.current + w.Size() * TICK
    && if n == 0 then last <= w.current else last < w.current
  }

  /** The same timer, having run n times at the multiples of its interval since `start`. */
  ghost predicate Recurs(w: Wheel, tag: nat, interval: nat, start: nat, n: nat) {
    RecursFrom(w, tag, interval, start + n * interval, n)
  }

  lemma NextTurn(interval: nat, n: nat)
    ensures (n + 1) * interval == n * interval + interval
  {
  }

  /** A recurring timer just scheduled, with a tag not used before. */
  lemma ScheduledRecurs(w: Wheel, interval: nat, tag: nat)
    requires WellFormed(w) && GridInterval(interval, w.Size())
    requires Total(w, Tagged(tag)) == 0
    ensures Recurs(ScheduleRecurring(w, interval, tag), tag, interval, w.current, 0)
  {
    var t := Timer(w.nextId, w.current + interval, Every(interval, tag), w.current);
    EnqueueAdds(w, t, Tagged(tag));
    PendingMember(w.buckets, Tagged(tag));
    var r, turn := Enqueue(w, t), w.current + interval;
    forall j | 0 <= j < r.Size()
      ensures TagBucket(r, j, tag, interval, turn)
    {
      assert forall x :: x in w.buckets[j] ==> !Tagged(tag)(x);
    }
  }

  /** Running callbacks adds one call, and one renewal an interval from now, per tagged timer. */
  lemma {:induction false} InvokeAllTagged(w: Wheel, due: seq<Timer>, now: nat, tag: nat, interval: nat, expire: nat)
    requires w.Size() > 0 && TagBuckets(w, tag, interval, expire)
    requires forall t :: t in due && t.callback.tag == tag ==> t.callback == Every(interval, tag)
    requires CountIn(due, Tagged(tag)) > 0 ==> expire == w.current + interval
    ensures var r := InvokeAll(w, due, now);
            && Called(r.calls, Tagged(tag)) == Called(w.calls, Tagged(tag)) + CountIn(due, Tagged(tag))
            && Pending(r.buckets, Tagged(tag)) == Pending(w.buckets, Tagged(tag)) + CountIn(due, Tagged(tag))
            && TagBuckets(r, tag, interval, expire)
    decreases |due|
  {
    if due != [] {
      var w' := Invoke(w, due[0], now);
      InvokeCounts(w, due[0], now, Tagged(tag));
      CountFirst(due, Tagged(tag));
      forall j | 0 <= j < w'.Size()
        ensures TagBucket(w', j, tag, interval, expire)
      {
        assert TagBucket(w, j, tag, interval, expire);
      }
      InvokeAllTagged(w', due[1..], now, tag, interval, expire);
    }
  }

  lemma {:induction false} TagElsewhere(buckets: seq<seq<Timer>>, b: nat, p: Timer -> bool)
    requires b < |buckets|
    requires forall j, t :: 0 <= j < |buckets| && j != b && t in buckets[j] ==> !p(t)
    ensures Pending(buckets, p) == CountIn(buckets[b], p)
  {
    PendingReplace(buckets, b, [], p);
    PendingMember(buckets[b := []], p);
    assert CountIn([], p) == 0;
  }

  lemma NoneCounted(list: seq<Timer>, p: Timer -> bool)
    requires forall t :: t in list ==> !p(t)
    ensures CountIn(list, p) == 0
  {
    CountMember(list, p);
  }

  /** A sweep that reaches the timer's turn runs it once. */
  lemma SweepOnTurn(w: Wheel, now: nat, tag: nat, interval: nat, last: nat, n: nat)
    requires WellFormed(w) && RecursFrom(w, tag, interval, last, n) && last + interval == w.current <= now
    ensures RecursFrom(Advance(Sweep(w, now)), tag, interval, last + interval, n + 1)
  {
    hide Pending, Called, TagBuckets;
    TurnTaken(w, now, tag, interval, last + interval);
    TagBucketsLater(Sweep(w, now), tag, interval, last + interval + interval);
  }

  /** Any other sweep leaves it alone. */
  lemma SweepOffTurn(w: Wheel, now: nat, tag: nat, interval: nat, last: nat, n: nat)
    requires WellFormed(w) && RecursFrom(w, tag, interval, last, n) && last + interval != w.current <= now
    ensures RecursFrom(Advance(Sweep(w, now)), tag, interval, last, n)
  {
    hide Pending, Called, TagBuckets;
    TurnNotTaken(w, now, tag, interval, last + interval);
    TagBucketsLater(Sweep(w, now), tag, interval, last + interval);
  }

  lemma TagBucketsLater(w: Wheel, tag: nat, interval: nat, turn: nat)
    requires TagBuckets(w, tag, interval, turn)
    ensures TagBuckets(Advance(w), tag, interval, turn)
  {
    forall j | 0 <= j < w.Size()
      ensures TagBucket(Advance(w), j, tag, interval, turn)
    {
      assert TagBucket(w, j, tag, interval, turn);
    }
  }

  predicate Untagged(list: seq<Timer>, tag: nat) {
    forall t :: t in list ==> t.callback.tag != tag
  }

  /** At its turn, the timers of the tag are all in the swept bucket. */
  lemma TaggedOnlyHere(w: Wheel, tag: nat, interval: nat, turn: nat, j: nat)
    requires WellFormed(w) && TagBuckets(w, tag, interval, turn) && turn == w.current
    requires j < w.Size() && j != BucketOf(w.current, w.Size())
    ensures Untagged(w.buckets[j], tag)
  {
    assert Fits(w, j) && TagBucket(w, j, tag, interval, turn);
  }

  /** And they are all due. */
  lemma TaggedAllDue(w: Wheel, now: nat, tag: nat, interval: nat, turn: nat)
    requires WellFormed(w) && TagBuckets(w, tag, interval, turn) && turn == w.current <= now
    ensures var list := w.buckets[BucketOf(w.current, w.Size())];
            && Untagged(Rest(list, now), tag)
            && (forall t :: t in Due(list, now) && t.callback.tag == tag ==> t.callback == Every(interval, tag))
            && CountIn(Due(list, now), Tagged(tag)) == CountIn(list, Tagged(tag))
  {
    var b := BucketOf(w.current, w.Size());
    assert TagBucket(w, b, tag, interval, turn);
    DueIsPart(w.buckets[b], now);
    CountParts(w.buckets[b], now, Tagged(tag));
    NoneCounted(Rest(w.buckets[b], now), Tagged(tag));
  }

  lemma TurnTaken(w: Wheel, now: nat, tag: nat, interval: nat, turn: nat)
    requires WellFormed(w) && TagBuckets(w, tag, interval, turn) && turn == w.current <= now
    ensures var r := Sweep(w, now);
            && Called(r.calls, Tagged(tag)) == Called(w.calls, Tagged(tag)) + Pending(w.buckets, Tagged(tag))
            && Pending(r.buckets, Tagged(tag)) == Pending(w.buckets, Tagged(tag))
            && TagBuckets(r, tag, interval, w.current + interval)
  {
    hide InvokeAll, Pending, Called;
    var b, next := BucketOf(w.current, w.Size()), w.current + interval;
    var due, left := Due(w.buckets[b], now), Replace(w, b, Rest(w.buckets[b], now));
    TaggedAllDue(w, now, tag, interval, turn);
    forall j | 0 <= j < left.Size()
      ensures Untagged(left.buckets[j], tag) && TagBucket(left, j, tag, interval, next)
      ensures j != b ==> Untagged(w.buckets[j], tag)
    {
      if j != b {
        TaggedOnlyHere(w, tag, interval, turn, j);
      }
    }
    TagElsewhere(w.buckets, b, Tagged(tag));
    TagElsewhere(left.buckets, b, Tagged(tag));
    NoneCounted(left.buckets[b], Tagged(tag));
    InvokeAllTagged(left, due, now, tag, interval, next);
  }

  lemma TurnNotTaken(w: Wheel, now: nat, tag: nat, interval: nat, turn: nat)
    requires WellFormed(w) && TagBuckets(w, tag, interval, turn) && turn % TICK == 0
    requires w.current < turn < w.current + w.Size() * TICK
    ensures var r := Sweep(w, now);
            && Called(r.calls, Tagged(tag)) == Called(w.calls, Tagged(tag))
            && Pending(r.buckets, Tagged(tag)) == Pending(w.buckets, Tagged(tag))
            && TagBuckets(r, tag, interval, turn)
  {
    var b, p := BucketOf(w.current, w.Size()), Tagged(tag);
    var due, rest := Due(w.buckets[b], now), Rest(w.buckets[b], now);
    var left := Replace(w, b, rest);
    DueIsPart(w.buckets[b], now);
    assert Fits(w, b) && TagBucket(w, b, tag, interval, turn);
    forall t | t in w.buckets[b]
      ensures !p(t)
    {
      if p(t) {
        SameVisit(w, turn);
        assert false;
      }
    }
    NoneCounted(due, p);
    NoneCounted(rest, p);
    NoneCounted(w.buckets[b], p);
    PendingReplace(w.buckets, b, rest, p);
    forall j | 0 <= j < left.Size()
      ensures TagBucket(left, j, tag, interval, turn)
    {
      assert TagBucket(w, j, tag, interval, turn);
    }
    InvokeAllTagged(left, due, now, tag, interval, turn);
  }

  lemma {:induction false} TickRecurs(w: Wheel, now: nat, tag: nat, interval: nat, start: nat, n: nat) returns (n': nat)
    requires WellFormed(w) && Recurs(w, tag, interval, start, n)
    ensures Recurs(Tick(w, now), tag, interval, start, n')
    ensures w.current <= now ==> start + n' * interval <= now < start + n' * interval + interval
    decreases if w.current <= now then now - w.current + 1 else 0
  {
    n' := n;
    if w.current <= now {
      var last, next := start + n * interval, Advance(Sweep(w, now));
      SweepKeepsForm(w, now);
      AdvanceKeepsForm(Sweep(w, now));
      NextTurn(interval, n);
      if last + interval == w.current {
        SweepOnTurn(w, now, tag, interval, last, n);
        n' := n + 1;
      } else {
        SweepOffTurn(w, now, tag, interval, last, n);
      }
      n' := TickRecurs(next, now, tag, interval, start, n');
    }
  }

  /** A recurring timer on the grid, shorter than a revolution and started at wheel time `start`,
      has run exactly floor((now - start) / interval) times once tick(now) has advanced the wheel. */
  lemma RecurringRunsOnSchedule(w: Wheel, now: nat, tag: nat, interval: nat, start: nat, n: nat)
    requires WellFormed(w) && Recurs(w, tag, interval, start, n) && w.current <= now
    ensures start <= now && Called(Tick(w, now).calls, Tagged(tag)) == (now - start) / interval
    ensures Recurs(Tick(w, now), tag, interval, start, (now - start) / interval)
  {
    var n' := TickRecurs(w, now, tag, interval, start, n);
    NextTurn(interval, n');
    TurnCount(start, interval, n', now);
  }

  lemma TurnCount(start: nat, interval: nat, n: nat, now: nat)
    requires interval > 0 && start + n * interval <= now < start + (n + 1) * interval
    ensures start <= now && (now - start) / interval == n
  {
    var r := now - start - n * interval;
    assert (n + 1) * interval == n * interval + interval;
    assert n * interval == interval * n;
    RemainderUnique(now - start, interval, n, r);
  }

  // ---------- the same over a whole run

  function RunFrom(w: Wheel, ops: seq<Op>): (r: Wheel)
    requires w.Size() > 0
    ensures r.Size() == w.Size()
  {
    if ops == [] then w else Apply(RunFrom(w, ops[..|ops|-1]), ops[|ops|-1])
  }

  ghost predicate IdUntagged(w: Wheel, id: nat, tag: nat) {
    forall j, t :: 0 <= j < w.Size() && t in w.buckets[j] && t.id == id ==> t.callback.tag != tag
  }

  /** The operation schedules other tags, cancels other timers, or is a tick that returns. */
  ghost predicate Spares(w: Wheel, op: Op, tag: nat) {
    match op
    case DoSchedule(_, t) => t != tag
    case DoScheduleAt(_, t) => t != tag
    case DoScheduleRecurring(_, t) => t != tag
    case DoCancel(id) => IdUntagged(w, id, tag)
    case DoTick(now) => Returns(w, now)
    case DoClear => false
  }

  ghost predicate AllSpare(w: Wheel, ops: seq<Op>, tag: nat)
    requires w.Size() > 0
  {
    ops == [] || (AllSpare(w, ops[..|ops|-1], tag) && Spares(RunFrom(w, ops[..|ops|-1]), ops[|ops|-1], tag))
  }

  lemma EnqueueKeepsRecurs(w: Wheel, t: Timer, tag: nat, interval: nat, last: nat, n: nat)
    requires w.Size() > 0 && RecursFrom(w, tag, interval, last, n) && t.callback.tag != tag
    ensures RecursFrom(Enqueue(w, t), tag, interval, last, n)
  {
    var turn := last + interval;
    EnqueueAdds(w, t, Tagged(tag));
    forall j | 0 <= j < w.Size()
      ensures TagBucket(Enqueue(w, t), j, tag, interval, turn)
    {
      assert TagBucket(w, j, tag, interval, turn);
    }
  }

  lemma CancelKeepsRecurs(w: Wheel, id: nat, tag: nat, interval: nat, last: nat, n: nat)
    requires w.Size() > 0 && RecursFrom(w, tag, interval, last, n) && IdUntagged(w, id, tag)
    ensures RecursFrom(Cancel(w, id), tag, interval, last, n)
  {
    var b, turn := BucketWith(w.buckets, id, 0), last + interval;
    if b < w.Size() {
      var list, i := w.buckets[b], PositionIn(w.buckets[b], id);
      assert list[i] in list;
      DropCounts(list, i, Tagged(tag));
      PendingReplace(w.buckets, b, DropAt(list, i), Tagged(tag));
    }
    forall j | 0 <= j < w.Size()
      ensures TagBucket(Cancel(w, id), j, tag, interval, turn)
    {
      assert TagBucket(w, j, tag, interval, turn);
    }
  }

  lemma ApplyKeepsRecurs(w: Wheel, op: Op, tag: nat, interval: nat, start: nat, n: nat) returns (n': nat)
    requires WellFormed(w) && Recurs(w, tag, interval, start, n) && Spares(w, op, tag)
    ensures Recurs(Apply(w, op), tag, interval, start, n')
  {
    hide RecursFrom;
    n' := n;
    var last := start + n * interval;
    match op
    case DoSchedule(duration, t) =>
      EnqueueKeepsRecurs(w, Timer(w.nextId, w.current + duration, Once(t), w.current), tag, interval, last, n);
    case DoScheduleAt(time, t) =>
      EnqueueKeepsRecurs(w, Timer(w.nextId, time, Once(t), w.current), tag, interval, last, n);
    case DoScheduleRecurring(d, t) =>
      EnqueueKeepsRecurs(w, Timer(w.nextId, w.current + d, Every(d, t), w.current), tag, interval, last, n);
    case DoCancel(id) => CancelKeepsRecurs(w, id, tag, interval, last, n);
    case DoTick(now) => n' := TickRecurs(w, now, tag, interval, start, n);
  }

  lemma {:induction false} RunKeepsRecurs(w: Wheel, ops: seq<Op>, tag: nat, interval: nat, start: nat, n: nat)
    returns (n': nat)
    requires WellFormed(w) && Recurs(w, tag, interval, start, n) && AllSpare(w, ops, tag)
    ensures WellFormed(RunFrom(w, ops)) && Recurs(RunFrom(w, ops), tag, interval, start, n')
    decreases |ops|
  {
    n' := n;
    if ops != [] {
      var front := ops[..|ops|-1];
      n' := RunKeepsRecurs(w, front, tag, interval, start, n);
      ApplyKeepsForm(RunFrom(w, front), ops[|ops|-1]);
      n' := ApplyKeepsRecurs(RunFrom(w, front), ops[|ops|-1], tag, interval, start, n');
    }
  }

  /** Whatever is scheduled, cancelled and ticked after a recurring timer has been scheduled on the grid,
      short of cancelling it: tick(now), once it has advanced the wheel, has brought the number of its
      runs to exactly floor((now - start) / interval). */
  lemma RecurringOverRun(w: Wheel, interval: nat, tag: nat, ops: seq<Op>, now: nat)
    requires WellFormed(w) && GridInterval(interval, w.Size()) && Total(w, Tagged(tag)) == 0
    requires AllSpare(ScheduleRecurring(w, interval, tag), ops, tag)
    requires var r := RunFrom(ScheduleRecurring(w, interval, tag), ops); r.current <= now && Returns(r, now)
    ensures var r := Tick(RunFrom(ScheduleRecurring(w, interval, tag), ops), now);
            w.current <= now && Called(r.calls, Tagged(tag)) == (now - w.current) / interval
  {
    hide Recurs, Tick, Called, RunFrom;
    var first := ScheduleRecurring(w, interval, tag);
    ScheduledRecurs(w, interval, tag);
    EnqueueKeepsForm(w, Timer(w.nextId, w.current + interval, Every(interval, tag), w.current));
    var n := RunKeepsRecurs(first, ops, tag, interval, w.current, 0);
    RecurringRunsOnSchedule(RunFrom(first, ops), now, tag, interval, w.current, n);
  }

  // ---------- ids

  function HasId(id: nat): Timer -> bool {
    (t: Timer) => t.id == id
  }

  ghost predicate IdOnce(w: Wheel, id: nat) {
    Total(w, HasId(id)) <= One(id < w.nextId)
  }

  /** Every id handed out belongs to at most one timer, pending or called; no other id is in use. */
  ghost predicate UniqueIds(w: Wheel) {
    forall id: nat :: IdOnce(w, id)
  }

  lemma EnqueueKeepsIds(w: Wheel, t: Timer)
    requires w.Size() > 0 && UniqueIds(w) && t.id == w.nextId
    ensures UniqueIds(Enqueue(w, t))
  {
    forall id: nat
      ensures IdOnce(Enqueue(w, t), id)
    {
      assert IdOnce(w, id);
      EnqueueAdds(w, t, HasId(id));
    }
  }

  /** The due timers, taken out of their bucket, still hold their ids. */
  ghost predicate IdOnceWith(w: Wheel, due: seq<Timer>, id: nat) {
    Total(w, HasId(id)) + CountIn(due, HasId(id)) <= One(id < w.nextId)
  }

  lemma {:induction false} InvokeAllKeepsIds(w: Wheel, due: seq<Timer>, now: nat)
    requires w.Size() > 0 && forall id: nat :: IdOnceWith(w, due, id)
    ensures UniqueIds(InvokeAll(w, due, now))
    decreases |due|
  {
    if due == [] {
      forall id: nat
        ensures IdOnce(w, id)
      {
        assert IdOnceWith(w, due, id);
      }
    } else {
      var w' := Invoke(w, due[0], now);
      forall id: nat
        ensures IdOnceWith(w', due[1..], id)
      {
        InvokeKeepsIdOnce(w, due, now, id);
      }
      InvokeAllKeepsIds(w', due[1..], now);
    }
  }

  lemma InvokeKeepsIdOnce(w: Wheel, due: seq<Timer>, now: nat, id: nat)
    requires w.Size() > 0 && due != [] && IdOnceWith(w, due, id)
    ensures IdOnceWith(Invoke(w, due[0], now), due[1..], id)
  {
    InvokeCounts(w, due[0], now, HasId(id));
    CountFirst(due, HasId(id));
  }

  lemma {:induction false} TickKeepsIds(w: Wheel, now: nat)
    requires w.Size() > 0 && UniqueIds(w)
    ensures UniqueIds(Tick(w, now))
    decreases if w.current <= now then now - w.current + 1 else 0
  {
    if w.current <= now {
      var b := BucketOf(w.current, w.Size());
      var due, left := Due(w.buckets[b], now), Replace(w, b, Rest(w.buckets[b], now));
      forall id: nat
        ensures IdOnceWith(left, due, id)
      {
        assert IdOnce(w, id);
        CountParts(w.buckets[b], now, HasId(id));
        PendingReplace(w.buckets, b, Rest(w.buckets[b], now), HasId(id));
      }
      InvokeAllKeepsIds(left, due, now);
      assert forall id: nat :: IdOnce(Sweep(w, now), id) == IdOnce(Advance(Sweep(w, now)), id);
      TickKeepsIds(Advance(Sweep(w, now)), now);
    }
  }

  lemma CancelCounts(w: Wheel, id: nat, p: Timer -> bool)
    ensures Pending(Cancel(w, id).buckets, p) <= Pending(w.buckets, p)
    ensures Pending(Cancel(w, id).buckets, HasId(id)) == if Cancel(w, id) == w then 0 else Pending(w.buckets, HasId(id)) - 1
    ensures Pending(w.buckets, HasId(id)) == 0 <==> Cancel(w, id) == w
  {
    var b := BucketWith(w.buckets, id, 0);
    PendingMember(w.buckets, HasId(id));
    if b < w.Size() {
      var list, i := w.buckets[b], PositionIn(w.buckets[b], id);
      DropCounts(list, i, p);
      DropCounts(list, i, HasId(id));
      PendingReplace(w.buckets, b, DropAt(list, i), p);
      PendingReplace(w.buckets, b, DropAt(list, i), HasId(id));
      assert list[i] in list;
    } else {
      forall j, t | 0 <= j < w.Size() && t in w.buckets[j]
        ensures t.id != id
      {
        assert PositionIn(w.buckets[j], id) == |w.buckets[j]|;
      }
    }
  }

  /** Once a timer has been called, recurring or not, its id cancels nothing: the renewals of a
      recurring timer carry new ids, so the id its scheduling returned stops it only before its
      first run. */
  lemma CalledIdCancelsNothing(w: Wheel, k: nat)
    requires UniqueIds(w) && k < |w.calls|
    ensures Cancel(w, w.calls[k].timer.id) == w
  {
    var id := w.calls[k].timer.id;
    CalledHas(w.calls, k, HasId(id));
    assert IdOnce(w, id);
    CancelCounts(w, id, HasId(id));
  }

  // ---------- from scheduling to the call

  lemma {:induction false} CalledAtMost(calls: seq<Call>, p: Timer -> bool, q: Timer -> bool)
    requires forall t :: p(t) ==> q(t)
    ensures Called(calls, p) <= Called(calls, q)
  {
    if calls != [] {
      CalledAtMost(calls[..|calls|-1], p, q);
    }
  }

  /** On the grid, a timer just scheduled, by whichever operation, is called by the first tick(now) with
      now at or past its expiry, and by no earlier one; the id identifies the call. */
  lemma EnqueuedIsCalled(w: Wheel, t: Timer, now: nat)
    requires WellFormed(w) && Aligned(w) && UniqueIds(w) && t.id == w.nextId && OnGrid(t, w.current)
    requires Returns(Enqueue(w, t), now)
    ensures Called(Tick(Enqueue(w, t), now).calls, HasId(t.id)) == if t.expire <= now then 1 else 0
  {
    var w', id := Enqueue(w, t), t.id;
    var r := Tick(w', now);
    hide Tick, Returns, WellFormed, Aligned, Pending, Called;
    EnqueueKeepsForm(w, t);
    EnqueueKeepsAligned(w, t);
    EnqueueKeepsIds(w, t);
    TickKeepsIds(w', now);
    assert IdOnce(w, id) && IdOnce(r, id);
    EnqueueAdds(w, t, Is(t));
    CalledAtMost(w.calls, Is(t), HasId(id));
    CalledAtMost(r.calls, Is(t), HasId(id));
    PendingAtMost(w.buckets, Is(t), HasId(id));
    PendingAtMost(r.buckets, Is(t), HasId(id));
    AlignedTickIsExact(w', now, t);
  }

  lemma {:induction false} PendingAtMost(buckets: seq<seq<Timer>>, p: Timer -> bool, q: Timer -> bool)
    requires forall t :: p(t) ==> q(t)
    ensures Pending(buckets, p) <= Pending(buckets, q)
  {
    if buckets != [] {
      PendingAtMost(buckets[..|buckets|-1], p, q);
      CountAtMost(buckets[|buckets|-1], p, q);
    }
  }

  lemma {:induction false} CountAtMost(list: seq<Timer>, p: Timer -> bool, q: Timer -> bool)
    requires forall t :: p(t) ==> q(t)
    ensures CountIn(list, p) <= CountIn(list, q)
  {
    if list != [] {
      CountAtMost(list[..|list|-1], p, q);
    }
  }

  lemma GridSum(a: nat, b: nat)
    requires a % TICK == 0 && b % TICK == 0
    ensures (a + b) % TICK == 0
  {
  }

  /** schedule(duration): called by tick(now) exactly when the wheel time then plus the duration has
      come; schedule_at(time): exactly when the time has; schedule_recurring(interval): its first run
      exactly when the interval has passed. */
  lemma ScheduledIsCalled(w: Wheel, duration: nat, tag: nat, now: nat)
    requires WellFormed(w) && Aligned(w) && UniqueIds(w) && duration % TICK == 0
    requires Returns(Schedule(w, duration, tag), now)
    ensures Called(Tick(Schedule(w, duration, tag), now).calls, HasId(w.nextId))
         == if w.current + duration <= now then 1 else 0
  {
    hide Tick, Returns, Aligned, Called, Fits;
    GridSum(w.current, duration);
    EnqueuedIsCalled(w, Timer(w.nextId, w.current + duration, Once(tag), w.current), now);
  }

  lemma ScheduledAtIsCalled(w: Wheel, time: nat, tag: nat, now: nat)
    requires WellFormed(w) && Aligned(w) && UniqueIds(w) && time % TICK == 0 && time >= w.current
    requires Returns(ScheduleAt(w, time, tag), now)
    ensures Called(Tick(ScheduleAt(w, time, tag), now).calls, HasId(w.nextId)) == if time <= now then 1 else 0
  {
    hide Tick, Returns, WellFormed, Aligned, Called;
    EnqueuedIsCalled(w, Timer(w.nextId, time, Once(tag), w.current), now);
  }

  lemma RecurringIsCalled(w: Wheel, interval: nat, tag: nat, now: nat)
    requires WellFormed(w) && Aligned(w) && UniqueIds(w) && interval % TICK == 0
    requires Returns(ScheduleRecurring(w, interval, tag), now)
    ensures Called(Tick(ScheduleRecurring(w, interval, tag), now).calls, HasId(w.nextId))
         == if w.current + interval <= now then 1 else 0
  {
    hide Tick, Returns, Aligned, Called, Fits;
    GridSum(w.current, interval);
    EnqueuedIsCalled(w, Timer(w.nextId, w.current + interval, Every(interval, tag), w.current), now);
  }

  /** A reachable instance: a timer of one tick, ticked once, is pending under a new id, and cancelling
      the id that its scheduling returned leaves it there. */
  lemma SpentIdCancelsNothing(size: nat, tag: nat)
    requires size > 1
    ensures var w := Run(size, [DoScheduleRecurring(TICK, tag), DoTick(TICK)]);
            && Start(size).nextId == 1 && Cancel(w, 1) == w
            && w.buckets[BucketOf(2 * TICK, size)] == [Timer(2, 2 * TICK, Every(TICK, tag), TICK)]
  {
    var ops := [DoScheduleRecurring(TICK, tag), DoTick(TICK)];
    assert ops[..1][..0] == [] && ops[..1] == [DoScheduleRecurring(TICK, tag)];
    RemainderUnique(0, size, 0, 0);
    RemainderUnique(1, size, 0, 1);
    var t, buckets := Timer(1, TICK, Every(TICK, tag), 0), Start(size).buckets;
    var w0 := Wheel(buckets[1 := [t]], 0, 2, []);
    assert BucketOf(TICK, size) == 1;
    assert Run(size, [DoScheduleRecurring(TICK, tag)]) == ScheduleRecurring(Start(size), TICK, tag) by {
      assert [DoScheduleRecurring(TICK, tag)][..0] == [];
    }
    assert ScheduleRecurring(Start(size), TICK, tag) == w0 by {
      assert buckets[1] + [t] == [t];
    }
    assert Run(size, ops) == Tick(w0, TICK);
    hide Run;
    TwoSweeps(size, w0, t);
    RunKeepsIds(size, ops);
    CalledIdCancelsNothing(Run(size, ops), 0);
  }

  lemma TwoSweeps(size: nat, w: Wheel, t: Timer)
    requires size > 1 && w == Wheel(Start(size).buckets[1 := [t]], 0, 2, [])
    requires t.callback.Every? && t.callback.interval == TICK && t.expire == TICK
    requires BucketOf(0, size) == 0 && BucketOf(TICK, size) == 1
    ensures var t', r := Timer(2, 2 * TICK, t.callback, TICK), Tick(w, TICK);
            && r.calls == [Call(t, TICK)] && r.buckets[BucketOf(2 * TICK, size)] == [t']
  {
    var t', w1 := Timer(2, 2 * TICK, t.callback, TICK), Advance(w);
    var w2 := Enqueue(Wheel(Start(size).buckets, TICK, 2, [Call(t, TICK)]), t');
    assert Sweep(w, TICK) == w by {
      assert w.buckets[0 := []] == w.buckets;
    }
    assert Sweep(w1, TICK) == w2 by {
      NoneDue([], TICK);
      assert Due([t], TICK) == [t] && Rest([t], TICK) == [];
      assert w1.buckets[1 := []] == Start(size).buckets;
      assert Invoke(Replace(w1, 1, []), t, TICK) == w2;
      assert InvokeAll(Replace(w1, 1, []), [t], TICK) == w2 by {
        assert [t][1..] == [];
      }
    }
    assert Tick(w, TICK) == Tick(w1, TICK) == Advance(w2);
  }

  lemma {:induction false} CalledHas(calls: seq<Call>, k: nat, p: Timer -> bool)
    requires k < |calls| && p(calls[k].timer)
    ensures Called(calls, p) >= 1
  {
    if k < |calls| - 1 {
      CalledHas(calls[..|calls|-1], k, p);
    }
  }

  lemma {:induction false} EmptyPending(size: nat, p: Timer -> bool)
    ensures Pending(seq(size, _ => []), p) == 0
  {
    PendingMember(seq(size, _ => []), p);
  }

  /** Ids stay unique over every run. */
  lemma {:induction false} RunKeepsIds(size: nat, ops: seq<Op>)
    requires size > 0
    ensures UniqueIds(Run(size, ops))
  {
    if ops == [] {
      forall id: nat
        ensures IdOnce(Start(size), id)
      {
        EmptyPending(size, HasId(id));
      }
    } else {
      var w, op := Run(size, ops[..|ops|-1]), ops[|ops|-1];
      RunKeepsIds(size, ops[..|ops|-1]);
      match op
      case DoSchedule(duration, tag) =>
        EnqueueKeepsIds(w, Timer(w.nextId, w.current + duration, Once(tag), w.current));
      case DoScheduleAt(time, tag) =>
        EnqueueKeepsIds(w, Timer(w.nextId, time, Once(tag), w.current));
      case DoScheduleRecurring(interval, tag) =>
        EnqueueKeepsIds(w, Timer(w.nextId, w.current + interval, Every(interval, tag), w.current));
      case DoTick(now) =>
        TickKeepsIds(w, now);
      case DoCancel(id) =>
        forall x: nat
          ensures IdOnce(Cancel(w, id), x)
        {
          assert IdOnce(w, x);
          CancelCounts(w, id, HasId(x));
        }
      case DoClear =>
        forall x: nat
          ensures IdOnce(Clear(w), x)
        {
          assert IdOnce(w, x);
          EmptyPending(w.Size(), HasId(x));
        }
    }
  }
}

/** What becomes of every timer: it is pending or called; and, for timers on the tick grid, a tick
    calls exactly what is due, in order. */
module WheelExact {
  import opened Lists
  import opened Remainders
  import opened WheelModel
  import opened WheelLaws

  // ---------- conservation: a timer is pending or has been called, never both, never neither

  function Is(x: Timer): Timer -> bool {
    (t: Timer) => t == x
  }

  function Tagged(tag: nat): Timer -> bool {
    (t: Timer) => t.callback.tag == tag
  }

  function Anything(): Timer -> bool {
    (t: Timer) => true
  }

  function One(b: bool): nat {
    if b then 1 else 0
  }

  /** How many timers with a property are in a list, pending in the buckets, or called. */
  ghost function CountIn(list: seq<Timer>, p: Timer -> bool): nat {
    if list == [] then 0 else CountIn(list[..|list|-1], p) + One(p(list[|list|-1]))
  }

  ghost function Pending(buckets: seq<seq<Timer>>, p: Timer -> bool): nat {
    if buckets == [] then 0
    else Pending(buckets[..|buckets|-1], p) + CountIn(buckets[|buckets|-1], p)
  }

  ghost function Called(calls: seq<Call>, p: Timer -> bool): nat {
    if calls == [] then 0
    else Called(calls[..|calls|-1], p) + One(p(calls[|calls|-1].timer))
  }

  ghost function Total(w: Wheel, p: Timer -> bool): nat {
    Pending(w.buckets, p) + Called(w.calls, p)
  }

  lemma {:induction false} CountConcat(a: seq<Timer>, b: seq<Timer>, p: Timer -> bool)
    ensures CountIn(a + b, p) == CountIn(a, p) + CountIn(b, p)
  {
    if b == [] {
      assert a + b == a;
    } else {
      CountConcat(a, b[..|b|-1], p);
      assert (a + b)[..|a + b| - 1] == a + b[..|b|-1];
    }
  }

  lemma {:induction false} CountAnything(list: seq<Timer>)
    ensures CountIn(list, Anything()) == |list|
  {
    if list != [] {
      CountAnything(list[..|list|-1]);
    }
  }

  lemma CountOne(t: Timer, p: Timer -> bool)
    ensures CountIn([t], p) == One(p(t))
  {
    assert [t][..0] == [];
  }

  lemma CountFirst(list: seq<Timer>, p: Timer -> bool)
    requires list != []
    ensures CountIn(list, p) == One(p(list[0])) + CountIn(list[1..], p)
  {
    CountConcat([list[0]], list[1..], p);
    CountOne(list[0], p);
    assert list == [list[0]] + list[1..];
  }

  lemma {:induction false} CountMember(list: seq<Timer>, p: Timer -> bool)
    ensures CountIn(list, p) > 0 <==> exists t :: t in list && p(t)
  {
    if list != [] {
      CountMember(list[..|list|-1], p);
      assert forall t :: t in list <==> t in list[..|list|-1] || t == list[|list|-1];
    }
  }

  lemma {:induction false} CountParts(list: seq<Timer>, now: nat, p: Timer -> bool)
    ensures CountIn(list, p) == CountIn(Due(list, now), p) + CountIn(Rest(list, now), p)
  {
    if list != [] {
      CountParts(list[1..], now, p);
      CountFirst(list, p);
      CountOne(list[0], p);
      CountConcat([list[0]], Due(list[1..], now), p);
      CountConcat([list[0]], Rest(list[1..], now), p);
      CountConcat([], Due(list[1..], now), p);
      CountConcat([], Rest(list[1..], now), p);
    }
  }

  lemma DropCounts(list: seq<Timer>, i: nat, p: Timer -> bool)
    requires i < |list|
    ensures CountIn(DropAt(list, i), p) == CountIn(list, p) - One(p(list[i]))
  {
    CountConcat(list[..i], list[i+1..], p);
    CountConcat(list[..i], list[i..], p);
    CountFirst(list[i..], p);
    assert list == list[..i] + list[i..] && list[i..][1..] == list[i+1..];
  }

  lemma {:induction false} PendingReplace(buckets: seq<seq<Timer>>, b: nat, list: seq<Timer>, p: Timer -> bool)
    requires b < |buckets|
    ensures Pending(buckets[b := list], p) + CountIn(buckets[b], p) == Pending(buckets, p) + CountIn(list, p)
  {
    var n, after := |buckets| - 1, buckets[b := list];
    if b == n {
      assert after[..n] == buckets[..n];
    } else {
      PendingReplace(buckets[..n], b, list, p);
      assert after[..n] == buckets[..n][b := list];
    }
  }

  lemma {:induction false} PendingMember(buckets: seq<seq<Timer>>, p: Timer -> bool)
    ensures Pending(buckets, p) > 0 <==> exists j, t :: 0 <= j < |buckets| && t in buckets[j] && p(t)
  {
    if buckets != [] {
      PendingMember(buckets[..|buckets|-1], p);
      CountMember(buckets[|buckets|-1], p);
      assert forall j :: 0 <= j < |buckets| - 1 ==> buckets[..|buckets|-1][j] == buckets[j];
    }
  }

  lemma CalledExtends(calls: seq<Call>, c: Call, p: Timer -> bool)
    ensures Called(calls + [c], p) == Called(calls, p) + One(p(c.timer))
  {
    assert (calls + [c])[..|calls|] == calls;
  }

  lemma EnqueueAdds(w: Wheel, t: Timer, p: Timer -> bool)
    requires w.Size() > 0
    ensures Pending(Enqueue(w, t).buckets, p) == Pending(w.buckets, p) + One(p(t))
  {
    var b := BucketOf(t.expire, w.Size());
    PendingReplace(w.buckets, b, w.buckets[b] + [t], p);
    CountConcat(w.buckets[b], [t], p);
    CountOne(t, p);
  }

  /** Running a callback files its timer under the called ones, and adds its renewal. */
  lemma InvokeCounts(w: Wheel, t: Timer, now: nat, p: Timer -> bool)
    requires w.Size() > 0
    ensures Called(Invoke(w, t, now).calls, p) == Called(w.calls, p) + One(p(t))
    ensures Pending(Invoke(w, t, now).buckets, p)
         == Pending(w.buckets, p) + if t.callback.Every? then One(p(Renewal(w, t))) else 0
  {
    var logged := w.(calls := w.calls + [Call(t, now)]);
    CalledExtends(w.calls, Call(t, now), p);
    if t.callback.Every? {
      EnqueueAdds(logged, Renewal(w, t), p);
    }
  }

  lemma {:induction false} InvokeAllConserves(w: Wheel, due: seq<Timer>, now: nat, x: Timer)
    requires w.Size() > 0 && x.id < w.nextId
    ensures Total(InvokeAll(w, due, now), Is(x)) == Total(w, Is(x)) + CountIn(due, Is(x))
    ensures InvokeAll(w, due, now).nextId >= w.nextId
    decreases |due|
  {
    if due != [] {
      InvokeCounts(w, due[0], now, Is(x));
      InvokeAllConserves(Invoke(w, due[0], now), due[1..], now, x);
      CountFirst(due, Is(x));
    }
  }

  lemma SweepConserves(w: Wheel, now: nat, x: Timer)
    requires w.Size() > 0 && x.id < w.nextId
    ensures Total(Sweep(w, now), Is(x)) == Total(w, Is(x)) && Sweep(w, now).nextId >= w.nextId
  {
    var b := BucketOf(w.current, w.Size());
    CountParts(w.buckets[b], now, Is(x));
    PendingReplace(w.buckets, b, Rest(w.buckets[b], now), Is(x));
    InvokeAllConserves(Replace(w, b, Rest(w.buckets[b], now)), Due(w.buckets[b], now), now, x);
  }

  /** A tick neither loses nor duplicates a timer: it only moves it from pending to called. */
  lemma {:induction false} TickConserves(w: Wheel, now: nat, x: Timer)
    requires w.Size() > 0 && x.id < w.nextId
    ensures Total(Tick(w, now), Is(x)) == Total(w, Is(x)) && Tick(w, now).nextId >= w.nextId
    decreases if w.current <= now then now - w.current + 1 else 0
  {
    if w.current <= now {
      SweepConserves(w, now, x);
      TickConserves(Advance(Sweep(w, now)), now, x);
    }
  }

  // ---------- timers on the grid

  predicate OnGrid(t: Timer, current: nat) {
    t.expire % TICK == 0 && t.expire >= current && (t.callback.Every? ==> t.callback.interval % TICK == 0)
  }

  ghost predicate GridBucket(w: Wheel, j: nat)
    requires j < w.Size()
  {
    forall t :: t in w.buckets[j] ==> OnGrid(t, w.current)
  }

  /** Every pending expiry is a multiple of the tick and not in the past. */
  ghost predicate Aligned(w: Wheel) {
    forall j :: 0 <= j < w.Size() ==> GridBucket(w, j)
  }

  lemma EnqueueKeepsAligned(w: Wheel, t: Timer)
    requires w.Size() > 0 && Aligned(w) && OnGrid(t, w.current)
    ensures Aligned(Enqueue(w, t))
  {
    forall j | 0 <= j < w.Size()
      ensures GridBucket(Enqueue(w, t), j)
    {
      assert GridBucket(w, j);
    }
  }

  lemma InvokeKeepsAligned(w: Wheel, t: Timer, now: nat)
    requires WellFormed(w) && Aligned(w) && OnGrid(t, 0)
    ensures Aligned(Invoke(w, t, now))
  {
    var logged := w.(calls := w.calls + [Call(t, now)]);
    assert forall j :: 0 <= j < w.Size() ==> GridBucket(w, j) == GridBucket(logged, j);
    if t.callback.Every? {
      EnqueueKeepsAligned(logged, Renewal(w, t));
    }
  }

  lemma {:induction false} InvokeAllKeepsAligned(w: Wheel, due: seq<Timer>, now: nat)
    requires WellFormed(w) && Aligned(w) && forall t :: t in due ==> OnGrid(t, 0)
    ensures Aligned(InvokeAll(w, due, now))
    decreases |due|
  {
    if due != [] {
      InvokeKeepsAligned(w, due[0], now);
      InvokeKeepsForm(w, due[0], now);
      InvokeAllKeepsAligned(Invoke(w, due[0], now), due[1..], now);
    }
  }

  /** Of the timers on the grid, those of the current bucket less than a revolution away expire now. */
  lemma SameVisit(w: Wheel, expire: nat)
    requires w.Size() > 0 && w.current % TICK == 0 && expire % TICK == 0
    requires w.current <= expire < w.current + w.Size() * TICK
    requires BucketOf(expire, w.Size()) == BucketOf(w.current, w.Size())
    ensures expire == w.current
  {
    SameRemainder(w.current / TICK, expire / TICK, w.Size());
  }

  lemma RestKeepsAligned(w: Wheel, now: nat)
    requires WellFormed(w) && Aligned(w)
    ensures var b := BucketOf(w.current, w.Size());
            && Aligned(Replace(w, b, Rest(w.buckets[b], now)))
            && forall t :: t in Due(w.buckets[b], now) ==> OnGrid(t, 0)
  {
    var b := BucketOf(w.current, w.Size());
    var left := Replace(w, b, Rest(w.buckets[b], now));
    assert Fits(w, b) && GridBucket(w, b);
    DueIsPart(w.buckets[b], now);
    forall j | 0 <= j < w.Size()
      ensures GridBucket(left, j)
    {
      assert GridBucket(w, j);
    }
  }

  lemma SweepKeepsAligned(w: Wheel, now: nat)
    requires WellFormed(w) && Aligned(w) && Returns(w, now) && w.current <= now
    ensures Aligned(Advance(Sweep(w, now)))
  {
    var b := BucketOf(w.current, w.Size());
    RestKeepsAligned(w, now);
    DueIsPart(w.buckets[b], now);
    ReplaceKeepsForm(w, b, Rest(w.buckets[b], now));
    InvokeAllKeepsAligned(Replace(w, b, Rest(w.buckets[b], now)), Due(w.buckets[b], now), now);
    SweepKeepsForm(w, now);
    SweepKeepsReturns(w, now);
    AdvanceAligned(Sweep(w, now));
  }

  lemma AdvanceAligned(w: Wheel)
    requires WellFormed(w) && Aligned(w)
    requires forall t :: t in w.buckets[BucketOf(w.current, w.Size())] ==> t.expire > w.current
    ensures Aligned(Advance(w))
  {
    forall j | 0 <= j < w.Size()
      ensures GridBucket(Advance(w), j)
    {
      assert GridBucket(w, j) && Fits(w, j);
      forall t | t in w.buckets[j]
        ensures t.expire >= w.current + TICK
      {
        assert BucketOf(t.expire, w.Size()) == j;
      }
    }
  }

  lemma {:induction false} TickKeepsAligned(w: Wheel, now: nat)
    requires WellFormed(w) && Aligned(w) && Returns(w, now)
    ensures Aligned(Tick(w, now))
    decreases if w.current <= now then now - w.current + 1 else 0
  {
    if w.current <= now {
      SweepKeepsAligned(w, now);
      SweepKeepsForm(w, now);
      SweepKeepsReturns(w, now);
      AdvanceKeepsForm(Sweep(w, now));
      TickKeepsAligned(Advance(Sweep(w, now)), now);
    }
  }

  /** For timers on the grid and not in the past, tick(now) is the flat set: it calls exactly the
      pending timers with expire <= now, each as often as it was pending, and leaves exactly the rest. */
  lemma AlignedTickIsExact(w: Wheel, now: nat, x: Timer)
    requires WellFormed(w) && Aligned(w) && Returns(w, now) && x.id < w.nextId
    ensures var r := Tick(w, now);
            && Pending(r.buckets, Is(x)) == (if x.expire > now then Pending(w.buckets, Is(x)) else 0)
            && Called(r.calls, Is(x)) == Called(w.calls, Is(x)) + if x.expire > now then 0 else Pending(w.buckets, Is(x))
  {
    var r := Tick(w, now);
    TickConserves(w, now, x);
    TickKeepsAligned(w, now);
    NeverEarly(w, now);
    CalledGrows(w.calls, r.calls, now, x);
    if x.expire <= now {
      NothingPendingIsDue(r, now, x);
    }
  }

  lemma NothingPendingIsDue(w: Wheel, now: nat, x: Timer)
    requires Aligned(w) && w.current > now && x.expire <= now
    ensures Pending(w.buckets, Is(x)) == 0
  {
    PendingMember(w.buckets, Is(x));
    forall j | 0 <= j < w.Size()
      ensures x !in w.buckets[j]
    {
      assert GridBucket(w, j);
    }
  }

  lemma {:induction false} CalledGrows(calls: seq<Call>, calls': seq<Call>, now: nat, x: Timer)
    requires Extends(calls, calls', now)
    ensures Called(calls', Is(x)) >= Called(calls, Is(x))
    ensures x.expire > now ==> Called(calls', Is(x)) == Called(calls, Is(x))
    decreases |calls'|
  {
    if |calls'| > |calls| {
      var shorter := calls'[..|calls'|-1];
      assert calls <= shorter;
      CalledGrows(calls, shorter, now, x);
    } else {
      assert calls == calls';
    }
  }

  // ---------- expiry order within one revolution

  predicate Earlier(a: Timer, b: Timer) {
    a.expire < b.expire || (a.expire == b.expire && a.id < b.id)
  }

  ghost predicate InOrder(calls: seq<Call>, from: nat) {
    forall i, k :: from <= i < k < |calls| ==> CallsOrdered(calls, i, k)
  }

  predicate CallsOrdered(calls: seq<Call>, i: nat, k: nat)
    requires i < |calls| && k < |calls|
  {
    Earlier(calls[i].timer, calls[k].timer)
  }

  predicate IdsOrdered(list: seq<Timer>, i: nat, k: nat)
    requires i < |list| && k < |list|
  {
    list[i].id < list[k].id
  }

  /** Timers are queued in a bucket in scheduling order. */
  ghost predicate IdsUp(list: seq<Timer>, nextId: nat) {
    && (forall i, k :: 0 <= i < k < |list| ==> IdsOrdered(list, i, k))
    && (forall t :: t in list ==> t.id < nextId)
  }

  ghost predicate IdsUpAt(w: Wheel, j: nat)
    requires j < w.Size()
  {
    IdsUp(w.buckets[j], w.nextId)
  }

  ghost predicate Queued(w: Wheel) {
    forall j :: 0 <= j < w.Size() ==> IdsUpAt(w, j)
  }

  lemma IdsUpTail(list: seq<Timer>, nextId: nat)
    requires IdsUp(list, nextId) && list != []
    ensures IdsUp(list[1..], nextId) && forall t :: t in list[1..] ==> list[0].id < t.id
  {
    forall i, k | 0 <= i < k < |list[1..]|
      ensures IdsOrdered(list[1..], i, k)
    {
      assert IdsOrdered(list, i + 1, k + 1);
    }
    forall k | 1 <= k < |list|
      ensures list[0].id < list[k].id
    {
      assert IdsOrdered(list, 0, k);
    }
  }

  lemma IdsUpCons(t: Timer, list: seq<Timer>, nextId: nat)
    requires IdsUp(list, nextId) && t.id < nextId && forall x :: x in list ==> t.id < x.id
    ensures IdsUp([t] + list, nextId)
  {
    forall i, k | 0 <= i < k < |[t] + list|
      ensures IdsOrdered([t] + list, i, k)
    {
      if i > 0 {
        assert IdsOrdered(list, i - 1, k - 1);
      }
    }
  }

  lemma {:induction false} PartsKeepIdsUp(list: seq<Timer>, now: nat, nextId: nat)
    requires IdsUp(list, nextId)
    ensures IdsUp(Due(list, now), nextId) && IdsUp(Rest(list, now), nextId)
  {
    if list != [] {
      IdsUpTail(list, nextId);
      PartsKeepIdsUp(list[1..], now, nextId);
      DueIsPart(list[1..], now);
      if list[0].expire <= now {
        IdsUpCons(list[0], Due(list[1..], now), nextId);
        assert Rest(list, now) == Rest(list[1..], now);
      } else {
        IdsUpCons(list[0], Rest(list[1..], now), nextId);
        assert Due(list, now) == Due(list[1..], now);
      }
    }
  }

  lemma EnqueueKeepsQueued(w: Wheel, t: Timer)
    requires w.Size() > 0 && Queued(w) && t.id == w.nextId
    ensures Queued(Enqueue(w, t))
  {
    var r := Enqueue(w, t);
    forall j | 0 <= j < w.Size()
      ensures IdsUpAt(r, j)
    {
      assert IdsUpAt(w, j);
      forall i, k | 0 <= i < k < |r.buckets[j]|
        ensures IdsOrdered(r.buckets[j], i, k)
      {
        if k < |w.buckets[j]| {
          assert IdsOrdered(w.buckets[j], i, k);
        }
      }
    }
  }

  lemma ReplaceKeepsQueued(w: Wheel, b: nat, list: seq<Timer>)
    requires Queued(w) && b < w.Size() && IdsUp(list, w.nextId)
    ensures Queued(Replace(w, b, list))
  {
    forall j | 0 <= j < w.Size()
      ensures IdsUpAt(Replace(w, b, list), j)
    {
      assert IdsUpAt(w, j);
    }
  }

  lemma InvokeKeepsQueued(w: Wheel, t: Timer, now: nat)
    requires w.Size() > 0 && Queued(w)
    ensures Queued(Invoke(w, t, now))
  {
    var logged := w.(calls := w.calls + [Call(t, now)]);
    assert forall j :: 0 <= j < w.Size() ==> IdsUpAt(w, j) == IdsUpAt(logged, j);
    if t.callback.Every? {
      EnqueueKeepsQueued(logged, Renewal(w, t));
    }
  }

  lemma {:induction false} InvokeAllKeepsQueued(w: Wheel, due: seq<Timer>, now: nat)
    requires w.Size() > 0 && Queued(w)
    ensures Queued(InvokeAll(w, due, now))
    decreases |due|
  {
    if due != [] {
      InvokeKeepsQueued(w, due[0], now);
      InvokeAllKeepsQueued(Invoke(w, due[0], now), due[1..], now);
    }
  }

  lemma {:induction false} TickKeepsQueued(w: Wheel, now: nat)
    requires w.Size() > 0 && Queued(w)
    ensures Queued(Tick(w, now))
    decreases if w.current <= now then now - w.current + 1 else 0
  {
    if w.current <= now {
      var b := BucketOf(w.current, w.Size());
      assert IdsUpAt(w, b);
      PartsKeepIdsUp(w.buckets[b], now, w.nextId);
      ReplaceKeepsQueued(w, b, Rest(w.buckets[b], now));
      InvokeAllKeepsQueued(Replace(w, b, Rest(w.buckets[b], now)), Due(w.buckets[b], now), now);
      var r := Sweep(w, now);
      assert forall j :: 0 <= j < r.Size() ==> IdsUpAt(r, j) == IdsUpAt(Advance(r), j);
      TickKeepsQueued(Advance(r), now);
    }
  }

  lemma DropKeepsIdsUp(list: seq<Timer>, i: nat, nextId: nat)
    requires IdsUp(list, nextId) && i < |list|
    ensures IdsUp(DropAt(list, i), nextId)
  {
    forall x, y | 0 <= x < y < |list| - 1
      ensures IdsOrdered(DropAt(list, i), x, y)
    {
      assert IdsOrdered(list, if x < i then x else x + 1, if y < i then y else y + 1);
    }
  }

  /** Scheduling on the grid: a multiple of the tick, and not in the past. */
  predicate OpOnGrid(op: Op, current: nat) {
    match op
    case DoSchedule(duration, _) => duration % TICK == 0
    case DoScheduleAt(time, _) => time % TICK == 0 && time >= current
    case DoScheduleRecurring(interval, _) => interval % TICK == 0
    case _ => true
  }

  /** Scheduling order within each bucket is kept by every operation. */
  lemma ApplyKeepsQueued(w: Wheel, op: Op)
    requires w.Size() > 0 && Queued(w)
    ensures Queued(Apply(w, op))
  {
    match op
    case DoSchedule(duration, tag) =>
      EnqueueKeepsQueued(w, Timer(w.nextId, w.current + duration, Once(tag), w.current));
    case DoScheduleAt(time, tag) =>
      EnqueueKeepsQueued(w, Timer(w.nextId, time, Once(tag), w.current));
    case DoScheduleRecurring(interval, tag) =>
      EnqueueKeepsQueued(w, Timer(w.nextId, w.current + interval, Every(interval, tag), w.current));
    case DoCancel(id) =>
      var b := BucketWith(w.buckets, id, 0);
      if b < w.Size() {
        assert IdsUpAt(w, b);
        DropKeepsIdsUp(w.buckets[b], PositionIn(w.buckets[b], id), w.nextId);
        ReplaceKeepsQueued(w, b, DropAt(w.buckets[b], PositionIn(w.buckets[b], id)));
      }
    case DoTick(now) => TickKeepsQueued(w, now);
    case DoClear =>
  }

  /** Being on the grid is kept by every operation that schedules on the grid. */
  lemma ApplyKeepsAligned(w: Wheel, op: Op)
    requires WellFormed(w) && Aligned(w) && OpOnGrid(op, w.current) && (op.DoTick? ==> Returns(w, op.now))
    ensures Aligned(Apply(w, op))
  {
    match op
    case DoSchedule(duration, tag) =>
      EnqueueKeepsAligned(w, Timer(w.nextId, w.current + duration, Once(tag), w.current));
    case DoScheduleAt(time, tag) =>
      EnqueueKeepsAligned(w, Timer(w.nextId, time, Once(tag), w.current));
    case DoScheduleRecurring(interval, tag) =>
      EnqueueKeepsAligned(w, Timer(w.nextId, w.current + interval, Every(interval, tag), w.current));
    case DoCancel(id) => CancelKeepsAligned(w, id);
    case DoTick(now) => TickKeepsAligned(w, now);
    case DoClear => assert forall j :: 0 <= j < w.Size() ==> GridBucket(Clear(w), j);
  }

  lemma CancelKeepsAligned(w: Wheel, id: nat)
    requires Aligned(w)
    ensures Aligned(Cancel(w, id))
  {
    forall j | 0 <= j < w.Size()
      ensures GridBucket(Cancel(w, id), j)
    {
      assert GridBucket(w, j);
    }
  }

  lemma {:induction false} InvokeAllInOrder(w: Wheel, due: seq<Timer>, now: nat, from: nat)
    requires w.Size() > 0 && Queued(w) && IdsUp(due, w.nextId) && forall t :: t in due ==> t.expire == w.current
    requires InOrder(w.calls, from) && from <= |w.calls|
    requires forall k, t :: from <= k < |w.calls| && t in due ==> Earlier(w.calls[k].timer, t)
    requires forall k :: from <= k < |w.calls| ==> w.calls[k].timer.expire <= w.current
    ensures var r := InvokeAll(w, due, now);
            && Queued(r) && InOrder(r.calls, from) && from <= |r.calls|
            && forall k :: from <= k < |r.calls| ==> r.calls[k].timer.expire <= w.current
    decreases |due|
  {
    if due != [] {
      var w' := Invoke(w, due[0], now);
      InvokeKeepsQueued(w, due[0], now);
      IdsUpTail(due, w.nextId);
      assert IdsUp(due[1..], w'.nextId);
      forall i, k | from <= i < k < |w'.calls|
        ensures CallsOrdered(w'.calls, i, k)
      {
        if k < |w.calls| {
          assert CallsOrdered(w.calls, i, k);
        }
      }
      InvokeAllInOrder(w', due[1..], now, from);
    }
  }

  /** Within one revolution every due timer of the swept bucket expires at the current time. */
  lemma DueNow(w: Wheel, now: nat)
    requires WellFormed(w) && Aligned(w) && now < w.current + w.Size() * TICK
    ensures forall t :: t in Due(w.buckets[BucketOf(w.current, w.Size())], now) ==> t.expire == w.current
  {
    var b := BucketOf(w.current, w.Size());
    DueIsPart(w.buckets[b], now);
    assert Fits(w, b) && GridBucket(w, b);
    forall t | t in Due(w.buckets[b], now)
      ensures t.expire == w.current
    {
      SameVisit(w, t.expire);
    }
  }

  lemma SweepInOrder(w: Wheel, now: nat, from: nat)
    requires WellFormed(w) && Aligned(w) && Queued(w) && w.current <= now < w.current + w.Size() * TICK
    requires InOrder(w.calls, from) && from <= |w.calls|
    requires forall k :: from <= k < |w.calls| ==> w.calls[k].timer.expire < w.current
    ensures var r := Sweep(w, now);
            && Queued(r) && InOrder(r.calls, from) && from <= |r.calls|
            && forall k :: from <= k < |r.calls| ==> r.calls[k].timer.expire <= w.current
  {
    var b := BucketOf(w.current, w.Size());
    var left := Replace(w, b, Rest(w.buckets[b], now));
    DueNow(w, now);
    assert IdsUpAt(w, b);
    PartsKeepIdsUp(w.buckets[b], now, w.nextId);
    forall j | 0 <= j < w.Size()
      ensures IdsUpAt(left, j)
    {
      assert IdsUpAt(w, j);
    }
    InvokeAllInOrder(left, Due(w.buckets[b], now), now, from);
  }

  /** A tick over less than one revolution calls its timers in expiry order, ties in scheduling
      order, renewals of recurring timers included. */
  lemma {:induction false} AlignedTickIsInOrder(w: Wheel, now: nat, from: nat)
    requires WellFormed(w) && Aligned(w) && Queued(w) && Returns(w, now)
    requires now < w.current + w.Size() * TICK
    requires InOrder(w.calls, from) && from <= |w.calls|
    requires forall k :: from <= k < |w.calls| ==> w.calls[k].timer.expire < w.current
    ensures InOrder(Tick(w, now).calls, from)
    decreases if w.current <= now then now - w.current + 1 else 0
  {
    if w.current <= now {
      var r := Sweep(w, now);
      SweepInOrder(w, now, from);
      SweepKeepsAligned(w, now);
      SweepKeepsForm(w, now);
      SweepKeepsReturns(w, now);
      AdvanceKeepsForm(r);
      assert forall j :: 0 <= j < r.Size() ==> IdsUpAt(r, j) == IdsUpAt(Advance(r), j);
      AlignedTickIsInOrder(Advance(r), now, from);
    }
  }

  /** In plain words: of two calls made by such a tick the earlier is for the earlier expiry, or for the
      same expiry and the smaller id. */
  lemma CallsInExpiryOrder(w: Wheel, now: nat, i: nat, k: nat)
    requires WellFormed(w) && Aligned(w) && Queued(w) && Returns(w, now)
    requires now < w.current + w.Size() * TICK && |w.calls| <= i < k < |Tick(w, now).calls|
    ensures var a, b := Tick(w, now).calls[i].timer, Tick(w, now).calls[k].timer;
            a.expire < b.expire || (a.expire == b.expire && a.id < b.id)
  {
    AlignedTickIsInOrder(w, now, |w.calls|);
    assert CallsOrdered(Tick(w, now).calls, i, k);
  }
}

/** The timer wheel as a value: scheduling, the bucket sweep, and ticks over modular time. */
module WheelModel {
  import opened Lists
  import opened Remainders

  const TICK: nat := 1_000_000

  /** A user callback, told apart by its tag; a recurring one schedules itself again when it runs. */
  datatype Callback = Once(tag: nat) | Every(interval: nat, tag: nat)

  /** A scheduled timer. `born` is the wheel time at scheduling; no operation reads it, it is kept
      so that lateness can be stated. */
  datatype Timer = Timer(id: nat, expire: nat, callback: Callback, born: nat)

  /** One callback invocation, made by tick(now). */
  datatype Call = Call(timer: Timer, now: nat)

  datatype Wheel = Wheel(buckets: seq<seq<Timer>>, current: nat, nextId: nat, calls: seq<Call>) {
    function Size(): nat { |buckets| }
  }

  function BucketOf(time: nat, size: nat): (b: nat)
    requires size > 0
    ensures b < size
  {
    (time / TICK) % size
  }

  function Enqueue(w: Wheel, t: Timer): Wheel
    requires w.Size() > 0
  {
    var b := BucketOf(t.expire, w.Size());
    w.(buckets := w.buckets[b := w.buckets[b] + [t]], nextId := w.nextId + 1)
  }

  function ScheduleAt(w: Wheel, time: nat, tag: nat): Wheel
    requires w.Size() > 0
  {
    Enqueue(w, Timer(w.nextId, time, Once(tag), w.current))
  }

  function Schedule(w: Wheel, duration: nat, tag: nat): Wheel
    requires w.Size() > 0
  {
    Enqueue(w, Timer(w.nextId, w.current + duration, Once(tag), w.current))
  }

  function ScheduleRecurring(w: Wheel, interval: nat, tag: nat): Wheel
    requires w.Size() > 0
  {
    Enqueue(w, Timer(w.nextId, w.current + interval, Every(interval, tag), w.current))
  }

  /** Run a timer's callback from tick(now); a recurring one re-enters the wheel. */
  function Invoke(w: Wheel, t: Timer, now: nat): Wheel
    requires w.Size() > 0
  {
    var logged := w.(calls := w.calls + [Call(t, now)]);
    match t.callback
    case Once(_) => logged
    case Every(interval, tag) => ScheduleRecurring(logged, interval, tag)
  }

  // ---------- one bucket

  /** The timers of a bucket that tick(now) runs, and those it leaves, each in list order. */
  function Due(list: seq<Timer>, now: nat): seq<Timer> {
    if list == [] then []
    else (if list[0].expire <= now then [list[0]] else []) + Due(list[1..], now)
  }

  function Rest(list: seq<Timer>, now: nat): seq<Timer> {
    if list == [] then []
    else (if list[0].expire <= now then [] else [list[0]]) + Rest(list[1..], now)
  }

  /** A recurring timer whose renewals never enter the bucket being scanned when it runs. */
  predicate SafeTimer(t: Timer, size: nat)
    requires size > 0
  {
    t.callback.Every? ==> (t.callback.interval / TICK) % size != 0
  }

  /** Run at this wheel time by tick(now), the timer renews itself into the bucket being scanned, and
      the renewal is due already. */
  predicate LoopsAt(t: Timer, time: nat, size: nat, now: nat)
    requires size > 0
  {
    t.expire <= now && !SafeTimer(t, size) && time + t.callback.interval <= now
  }

  ghost predicate NoneLoops(list: seq<Timer>, time: nat, size: nat, now: nat)
    requires size > 0
  {
    forall t :: t in list ==> !LoopsAt(t, time, size, now)
  }

  /** The timer a recurring callback schedules when it runs. */
  function Renewal(w: Wheel, t: Timer): Timer
    requires t.callback.Every?
  {
    Timer(w.nextId, w.current + t.callback.interval, t.callback, w.current)
  }

  /** What running a timer adds to bucket b. */
  function ReEntered(w: Wheel, t: Timer, b: nat): seq<Timer>
    requires w.Size() > 0
  {
    if t.callback.Every? && BucketOf(w.current + t.callback.interval, w.Size()) == b then [Renewal(w, t)] else []
  }

  /** One round of the loop over the list: run and erase a due timer, or move past it. */
  function ScanStep(w: Wheel, b: nat, i: nat, now: nat): (Wheel, nat)
    requires b < w.Size() && i < |w.buckets[b]|
  {
    var t := w.buckets[b][i];
    if t.expire <= now then
      var after := Invoke(w, t, now);
      InvokeGrows(w, t, now, b);
      (after.(buckets := after.buckets[b := DropAt(after.buckets[b], i)]), i)
    else (w, i + 1)
  }

  lemma InvokeGrows(w: Wheel, t: Timer, now: nat, b: nat)
    requires b < w.Size()
    ensures Invoke(w, t, now).Size() == w.Size() && |Invoke(w, t, now).buckets[b]| >= |w.buckets[b]|
  {
  }

  lemma InvokeReplaced(w: Wheel, b: nat, list: seq<Timer>, t: Timer, now: nat)
    requires b < w.Size()
    ensures Invoke(Replace(w, b, list), t, now) == Replace(Invoke(w, t, now), b, list + ReEntered(w, t, b))
    ensures Invoke(w, t, now).buckets[b] == w.buckets[b] + ReEntered(w, t, b)
    ensures Invoke(w, t, now).Size() == w.Size() && Invoke(w, t, now).current == w.current
  {
    assert list + [] == list && w.buckets[b] + [] == w.buckets[b];
    if t.callback.Every? {
      var e, x := BucketOf(w.current + t.callback.interval, w.Size()), Renewal(w, t);
      if e == b {
        assert w.buckets[b := list][b := list + [x]] == w.buckets[b := w.buckets[b] + [x]][b := list + [x]];
      } else {
        assert w.buckets[b := list][e := w.buckets[e] + [x]] == w.buckets[e := w.buckets[e] + [x]][b := list];
      }
    }
  }

  /** What a due timer that does not loop adds to its own bucket is not due. */
  lemma ReEnteredNotDue(w: Wheel, t: Timer, now: nat)
    requires w.Size() > 0 && w.current % TICK == 0
    requires t.expire <= now && !LoopsAt(t, w.current, w.Size(), now)
    ensures forall r :: r in ReEntered(w, t, BucketOf(w.current, w.Size())) ==> r.expire > now
  {
    if t.callback.Every? {
      SafeElsewhere(w.current, t.callback.interval, w.Size());
    }
  }

  /** From a time on the grid, an interval lands in the same bucket exactly when it spans a multiple
      of the wheel size in ticks. */
  lemma SafeElsewhere(current: nat, interval: nat, size: nat)
    requires size > 0 && current % TICK == 0
    ensures BucketOf(current + interval, size) == BucketOf(current, size) <==> (interval / TICK) % size == 0
  {
    var c, d := current / TICK, interval / TICK;
    assert (current + interval) / TICK == c + d;
    SumRemainder(c, d, size);
    if d % size != 0 && (c + d) % size == c % size {
      SameAfterAdding(c, d % size, size);
    }
  }

  lemma SumRemainder(a: nat, b: nat, n: nat)
    requires n > 0
    ensures (a + b) % n == (a + b % n) % n
  {
    var r := (a + b % n) % n;
    assert a + b % n == n * ((a + b % n) / n) + r;
    assert b == n * (b / n) + b % n;
    assert a + b == n * ((a + b % n) / n + b / n) + r;
    RemainderUnique(a + b, n, (a + b % n) / n + b / n, r);
  }

  lemma SameAfterAdding(a: nat, b: nat, n: nat)
    requires n > 0 && b < n && (a + b) % n == a % n
    ensures b == 0
  {
    SameRemainder(a, a + b, n);
  }

  lemma PartsFirst(list: seq<Timer>, now: nat)
    requires list != []
    ensures Due(list, now) == (if list[0].expire <= now then [list[0]] else []) + Due(list[1..], now)
    ensures Rest(list, now) == (if list[0].expire <= now then [] else [list[0]]) + Rest(list[1..], now)
  {
  }

  lemma Regroup<T>(a: seq<T>, b: seq<T>, c: seq<T>)
    ensures a + (b + c) == a + b + c
  {
  }

  lemma {:induction false} PartsConcat(a: seq<Timer>, b: seq<Timer>, now: nat)
    ensures Due(a + b, now) == Due(a, now) + Due(b, now) && Rest(a + b, now) == Rest(a, now) + Rest(b, now)
  {
    if a == [] {
      assert a + b == b;
    } else {
      hide Due, Rest;
      PartsConcat(a[1..], b, now);
      assert (a + b)[1..] == a[1..] + b;
      PartsFirst(a, now);
      PartsFirst(a + b, now);
      Regroup(if a[0].expire <= now then [a[0]] else [], Due(a[1..], now), Due(b, now));
      Regroup(if a[0].expire <= now then [] else [a[0]], Rest(a[1..], now), Rest(b, now));
    }
  }

  lemma {:induction false} NoneDue(list: seq<Timer>, now: nat)
    requires forall t :: t in list ==> t.expire > now
    ensures Due(list, now) == [] && Rest(list, now) == list
  {
    if list != [] {
      NoneDue(list[1..], now);
      assert list == [list[0]] + list[1..];
    }
  }

  /** The whole in-place scan from position i, where no timer of the bucket loops. */
  function Scan(w: Wheel, b: nat, i: nat, now: nat): Wheel
    requires w.Size() > 0 && w.current % TICK == 0 && b == BucketOf(w.current, w.Size())
    requires i <= |w.buckets[b]| && NoneLoops(w.buckets[b], w.current, w.Size(), now)
    decreases |Due(w.buckets[b][i..], now)|, |w.buckets[b]| - i
  {
    if i == |w.buckets[b]| then w
    else
      ScanStepAdvances(w, b, i, now);
      var (w', i') := ScanStep(w, b, i, now);
      Scan(w', b, i', now)
  }

  /** A round keeps the bucket free of loops and leaves less to do; what it adds is not due. */
  lemma ScanStepAdvances(w: Wheel, b: nat, i: nat, now: nat)
    requires w.Size() > 0 && w.current % TICK == 0 && b == BucketOf(w.current, w.Size())
    requires i < |w.buckets[b]| && NoneLoops(w.buckets[b], w.current, w.Size(), now)
    ensures var (w', i') := ScanStep(w, b, i, now);
            var list, list' := w.buckets[b], w'.buckets[b];
            && w'.Size() == w.Size() && w'.current == w.current && i' <= |list'|
            && NoneLoops(list', w.current, w.Size(), now)
            && (list[i].expire > now ==> |Due(list'[i'..], now)| == |Due(list[i..], now)| && |list'| - i' < |list| - i)
            && (list[i].expire <= now ==> |Due(list'[i'..], now)| < |Due(list[i..], now)|)
            && (list[i].expire <= now ==> list' == DropAt(list, i) + ReEntered(w, list[i], b))
            && (list[i].expire <= now ==> Rest(list'[i..], now) == Rest(list[i+1..], now) + ReEntered(w, list[i], b))
            && (list[i].expire <= now ==> Due(list'[i..], now) == Due(list[i+1..], now))
  {
    var list := w.buckets[b];
    var t := list[i];
    assert list[i..][1..] == list[i+1..];
    if t.expire <= now {
      InvokeReplaced(w, b, list, t, now);
      ReEnteredNotDue(w, t, now);
      var more := ReEntered(w, t, b);
      assert DropAt(list + more, i) == DropAt(list, i) + more;
      assert (DropAt(list, i) + more)[i..] == list[i+1..] + more;
      PartsConcat(list[i+1..], more, now);
      NoneDue(more, now);
    }
  }

  function InvokeAll(w: Wheel, due: seq<Timer>, now: nat): (r: Wheel)
    requires w.Size() > 0
    ensures r.Size() == w.Size() && r.current == w.current
    decreases |due|
  {
    if due == [] then w else InvokeAll(Invoke(w, due[0], now), due[1..], now)
  }

  /** The sweep: take the due timers out of the bucket, then run them in list order. */
  function Sweep(w: Wheel, now: nat): (r: Wheel)
    requires w.Size() > 0
    ensures r.Size() == w.Size() && r.current == w.current
  {
    var b := BucketOf(w.current, w.Size());
    InvokeAll(w.(buckets := w.buckets[b := Rest(w.buckets[b], now)]), Due(w.buckets[b], now), now)
  }

  function Replace(w: Wheel, b: nat, list: seq<Timer>): Wheel
    requires b < w.Size()
  {
    w.(buckets := w.buckets[b := list])
  }

  /** Erasing from the list while iterating over it, with callbacks that enter the wheel and even
      this list again, is the sweep. */
  lemma {:induction false} ScanIsSweep(w: Wheel, b: nat, i: nat, now: nat)
    requires w.Size() > 0 && w.current % TICK == 0 && b == BucketOf(w.current, w.Size())
    requires i <= |w.buckets[b]| && NoneLoops(w.buckets[b], w.current, w.Size(), now)
    ensures var list := w.buckets[b];
            Scan(w, b, i, now) == InvokeAll(Replace(w, b, list[..i] + Rest(list[i..], now)), Due(list[i..], now), now)
    decreases |Due(w.buckets[b][i..], now)|, |w.buckets[b]| - i
  {
    var list := w.buckets[b];
    if i == |list| {
      assert list[..i] + Rest(list[i..], now) == list;
    } else {
      var t := list[i];
      assert list[i..][1..] == list[i+1..];
      ScanStepAdvances(w, b, i, now);
      var (w', i') := ScanStep(w, b, i, now);
      ScanIsSweep(w', b, i', now);
      if t.expire <= now {
        DueRound(w, b, i, now);
      } else {
        PartsFirst(list[i..], now);
        assert Due(list[i..], now) == Due(list[i+1..], now);
        assert list[..i] + Rest(list[i..], now) == list[..i+1] + Rest(list[i+1..], now);
      }
    }
  }

  /** Running a due timer first, or taking it out of the list first. */
  lemma DueRound(w: Wheel, b: nat, i: nat, now: nat)
    requires w.Size() > 0 && w.current % TICK == 0 && b == BucketOf(w.current, w.Size())
    requires i < |w.buckets[b]| && NoneLoops(w.buckets[b], w.current, w.Size(), now) && w.buckets[b][i].expire <= now
    ensures var list, w' := w.buckets[b], ScanStep(w, b, i, now).0;
            var list' := w'.buckets[b];
            && i <= |list'|
            && InvokeAll(Replace(w', b, list'[..i] + Rest(list'[i..], now)), Due(list'[i..], now), now)
               == InvokeAll(Replace(w, b, list[..i] + Rest(list[i..], now)), Due(list[i..], now), now)
  {
    var list, w' := w.buckets[b], ScanStep(w, b, i, now).0;
    var t, more := list[i], ReEntered(w, list[i], b);
    var kept := list[..i] + Rest(list[i+1..], now);
    assert list[i..][1..] == list[i+1..];
    PartsFirst(list[i..], now);
    ScanStepAdvances(w, b, i, now);
    InvokeReplaced(w, b, kept, t, now);
    assert w'.buckets[b][..i] == list[..i];
    assert Replace(w', b, kept + more) == Invoke(Replace(w, b, kept), t, now);
    InvokeFirst(Replace(w, b, kept), t, Due(list[i+1..], now), now);
    hide InvokeAll, Invoke, Due, Rest, ScanStep;
    assert Rest(list[i..], now) == Rest(list[i+1..], now);
    Regroup(list[..i], Rest(list[i+1..], now), more);
  }

  lemma InvokeFirst(w: Wheel, t: Timer, due: seq<Timer>, now: nat)
    requires w.Size() > 0
    ensures InvokeAll(w, [t] + due, now) == InvokeAll(Invoke(w, t, now), due, now)
  {
    assert ([t] + due)[1..] == due;
  }
}

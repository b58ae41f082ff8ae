/** When tick returns at all: its rounds one by one, on any wheel. */
module WheelReturns {
  import opened Lists
  import opened Remainders
  import opened WheelModel
  import opened WheelLaws
  import opened WheelExact

  /** A wheel and a position in the bucket of its current time. */
  predicate Positioned(w: Wheel, i: nat) {
    w.Size() > 0 && i <= |w.buckets[BucketOf(w.current, w.Size())]|
  }

  /** One round of the two loops: run or pass the timer at the position, or go on to the next bucket. */
  function TickStep(w: Wheel, i: nat, now: nat): (r: (Wheel, nat))
    requires Positioned(w, i)
    ensures Positioned(r.0, r.1)
  {
    var b := BucketOf(w.current, w.Size());
    if i == |w.buckets[b]| then (Advance(w), 0)
    else
      InvokeGrows(w, w.buckets[b][i], now, b);
      ScanStep(w, b, i, now)
  }

  /** The first n rounds of tick(now), or all of them when there are fewer. */
  function TickRounds(w: Wheel, i: nat, now: nat, n: nat): (r: (Wheel, nat))
    requires Positioned(w, i)
    ensures Positioned(r.0, r.1)
    decreases n
  {
    if n == 0 || w.current > now then (w, i)
    else
      var (w', i') := TickStep(w, i, now);
      TickRounds(w', i', now, n - 1)
  }

  lemma {:induction false} RoundsAdd(w: Wheel, i: nat, now: nat, m: nat, n: nat)
    requires Positioned(w, i)
    ensures var (w', i') := TickRounds(w, i, now, m);
            TickRounds(w, i, now, m + n) == TickRounds(w', i', now, n)
    decreases m
  {
    hide TickStep;
    if m > 0 && w.current <= now {
      var (w', i') := TickStep(w, i, now);
      RoundsAdd(w', i', now, m - 1, n);
    } else if m > 0 {
      assert TickRounds(w, i, now, n) == (w, i);
    }
  }

  // ---------- without a loop

  /** A bucket without a looping timer is scanned in finitely many rounds. */
  lemma {:induction false} ScanTakes(w: Wheel, i: nat, now: nat) returns (n: nat)
    requires Positioned(w, i) && w.current % TICK == 0 && w.current <= now
    requires NoneLoops(w.buckets[BucketOf(w.current, w.Size())], w.current, w.Size(), now)
    ensures TickRounds(w, i, now, n) == (Advance(Scan(w, BucketOf(w.current, w.Size()), i, now)), 0)
    decreases |Due(w.buckets[BucketOf(w.current, w.Size())][i..], now)|, |w.buckets[BucketOf(w.current, w.Size())]| - i
  {
    var b := BucketOf(w.current, w.Size());
    var (w', i') := TickStep(w, i, now);
    if i == |w.buckets[b]| {
      assert TickRounds(w', i', now, 0) == (w', i');
      return 1;
    }
    ScanStepAdvances(w, b, i, now);
    n := ScanTakes(w', i', now);
    n := n + 1;
  }

  lemma SweepTakes(w: Wheel, now: nat) returns (n: nat)
    requires w.current % TICK == 0 && Returns(w, now) && w.current <= now
    ensures TickRounds(w, 0, now, n) == (Advance(Sweep(w, now)), 0) && Returns(Advance(Sweep(w, now)), now)
  {
    var b := BucketOf(w.current, w.Size());
    SweepKeepsReturns(w, now);
    hide Returns;
    ScanIsSweep(w, b, 0, now);
    assert w.buckets[b][0..] == w.buckets[b] && w.buckets[b][..0] + Rest(w.buckets[b], now) == Rest(w.buckets[b], now);
    n := ScanTakes(w, 0, now);
  }

  /** And tick then returns, having swept its buckets. */
  lemma {:induction false} TickTakes(w: Wheel, now: nat) returns (n: nat)
    requires w.current % TICK == 0 && Returns(w, now)
    ensures TickRounds(w, 0, now, n) == (Tick(w, now), 0)
    decreases if w.current <= now then now - w.current + 1 else 0
  {
    n := 0;
    if w.current <= now {
      hide TickRounds, Sweep, Returns, Advance, Positioned;
      var m := SweepTakes(w, now);
      n := TickTakes(Advance(Sweep(w, now)), now);
      RoundsAdd(w, 0, now, m, n);
      n := m + n;
    }
  }

  // ---------- with a loop

  /** The timer at position k of bucket j is ahead, and will loop when its bucket is visited. */
  predicate LoopAhead(w: Wheel, i: nat, now: nat, j: nat, k: nat) {
    && j < w.Size() && k < |w.buckets[j]| && LoopsAt(w.buckets[j][k], NextVisit(w, j), w.Size(), now)
    && (j == BucketOf(w.current, w.Size()) ==> i <= k)
  }

  lemma LoopStaysAhead(w: Wheel, i: nat, now: nat, j: nat, k: nat) returns (k': nat)
    requires Positioned(w, i) && w.current % TICK == 0 && LoopAhead(w, i, now, j, k)
    ensures var (w', i') := TickStep(w, i, now);
            && LoopAhead(w', i', now, j, k') && NextVisit(w', j) == NextVisit(w, j) && w'.current % TICK == 0
  {
    var b := BucketOf(w.current, w.Size());
    var (w', i') := TickStep(w, i, now);
    k' := k;
    if i == |w.buckets[b]| {
      NextVisitLater(w, j);
    } else if w.buckets[b][i].expire <= now {
      k' := LoopAheadOfRun(w, i, now, j, k);
    }
  }

  lemma LoopAheadOfRun(w: Wheel, i: nat, now: nat, j: nat, k: nat) returns (k': nat)
    requires Positioned(w, i) && w.current % TICK == 0 && LoopAhead(w, i, now, j, k)
    requires i < |w.buckets[BucketOf(w.current, w.Size())]| && w.buckets[BucketOf(w.current, w.Size())][i].expire <= now
    ensures var b := BucketOf(w.current, w.Size());
            var w' := ScanStep(w, b, i, now).0;
            && LoopAhead(w', i, now, j, k') && w'.Size() == w.Size() && w'.current == w.current
  {
    hide Invoke;
    var b := BucketOf(w.current, w.Size());
    var list, t := w.buckets[b], w.buckets[b][i];
    InvokeReplaced(w, b, list, t, now);
    InvokeReplaced(w, j, w.buckets[j], t, now);
    if j != b {
      hide ReEntered, LoopsAt;
      k' := k;
    } else if i < k {
      hide ReEntered, LoopsAt;
      k' := k - 1;
    } else {
      SafeElsewhere(w.current, t.callback.interval, w.Size());
      k' := |list| - 1;
    }
  }

  /** One looping timer ahead, and the wheel time never passes the visit to its bucket. */
  lemma {:induction false} LoopNeverEnds(w: Wheel, i: nat, now: nat, j: nat, k: nat, n: nat)
    requires Positioned(w, i) && w.current % TICK == 0 && LoopAhead(w, i, now, j, k)
    ensures TickRounds(w, i, now, n).0.current <= NextVisit(w, j) <= now
    decreases n
  {
    if n > 0 && w.current <= now {
      var (w', i') := TickStep(w, i, now);
      var k' := LoopStaysAhead(w, i, now, j, k);
      LoopNeverEnds(w', i', now, j, k', n - 1);
    }
  }

  // ---------- exactly when

  /** tick(now) returns exactly when no timer of the wheel loops at the next visit to its bucket: a due
      recurring timer whose interval, in ticks, is a multiple of the wheel size and whose renewal from
      that visit is due again. When it returns, it has swept bucket after bucket. */
  lemma TickReturnsIff(w: Wheel, now: nat)
    requires w.Size() > 0 && w.current % TICK == 0
    ensures (exists n: nat :: TickRounds(w, 0, now, n).0.current > now) <==> Returns(w, now)
    ensures Returns(w, now) ==> exists n: nat :: TickRounds(w, 0, now, n) == (Tick(w, now), 0)
  {
    if Returns(w, now) {
      var n := TickTakes(w, now);
    } else {
      var j :| 0 <= j < w.Size() && !BucketReturns(w, j, now);
      var t :| t in w.buckets[j] && LoopsAt(t, NextVisit(w, j), w.Size(), now);
      var k :| 0 <= k < |w.buckets[j]| && w.buckets[j][k] == t;
      forall n: nat
        ensures TickRounds(w, 0, now, n).0.current <= now
      {
        LoopNeverEnds(w, 0, now, j, k, n);
      }
    }
  }

  /** tick(now) gets past the bucket it is scanning exactly when none of that bucket's timers loops. */
  lemma ScanEndsIff(w: Wheel, now: nat)
    requires w.Size() > 0 && w.current % TICK == 0 && w.current <= now
    ensures (exists n: nat :: TickRounds(w, 0, now, n).0.current > w.current)
       <==> NoneLoops(w.buckets[BucketOf(w.current, w.Size())], w.current, w.Size(), now)
  {
    var b := BucketOf(w.current, w.Size());
    if NoneLoops(w.buckets[b], w.current, w.Size(), now) {
      var n := ScanTakes(w, 0, now);
      ScanIsSweep(w, b, 0, now);
      assert TickRounds(w, 0, now, n).0.current > w.current;
    } else {
      var t :| t in w.buckets[b] && LoopsAt(t, w.current, w.Size(), now);
      var k :| 0 <= k < |w.buckets[b]| && w.buckets[b][k] == t;
      forall n: nat
        ensures TickRounds(w, 0, now, n).0.current <= w.current
      {
        LoopNeverEnds(w, 0, now, b, k, n);
      }
    }
  }

  /** Whether tick returns or not, no round of it runs a timer before its expiry. */
  lemma {:induction false} RoundsNeverEarly(w: Wheel, i: nat, now: nat, n: nat)
    requires Positioned(w, i)
    ensures Extends(w.calls, TickRounds(w, i, now, n).0.calls, now)
    ensures var calls := TickRounds(w, i, now, n).0.calls;
            forall k :: |w.calls| <= k < |calls| ==> calls[k].timer.expire <= now
    decreases n
  {
    if n > 0 && w.current <= now {
      var (w', i') := TickStep(w, i, now);
      RoundsNeverEarly(w', i', now, n - 1);
    }
  }

  /** And none loses or duplicates a timer. */
  lemma {:induction false} RoundsConserve(w: Wheel, i: nat, now: nat, n: nat, x: Timer)
    requires Positioned(w, i) && x.id < w.nextId
    ensures Total(TickRounds(w, i, now, n).0, Is(x)) == Total(w, Is(x))
    decreases n
  {
    if n > 0 && w.current <= now {
      StepConserves(w, i, now, x);
      var (w', i') := TickStep(w, i, now);
      RoundsConserve(w', i', now, n - 1, x);
    }
  }

  lemma StepConserves(w: Wheel, i: nat, now: nat, x: Timer)
    requires Positioned(w, i) && x.id < w.nextId
    ensures var w' := TickStep(w, i, now).0; Total(w', Is(x)) == Total(w, Is(x)) && x.id < w'.nextId
  {
    var b := BucketOf(w.current, w.Size());
    if i < |w.buckets[b]| && w.buckets[b][i].expire <= now {
      var t := w.buckets[b][i];
      InvokeConserves(w, t, now, x);
      InvokeReplaced(w, b, w.buckets[b], t, now);
      hide Invoke, Pending, Called, CountIn, BucketOf, ReEntered;
      EraseCounts(Invoke(w, t, now), b, i, Is(x));
    }
  }

  lemma InvokeConserves(w: Wheel, t: Timer, now: nat, x: Timer)
    requires w.Size() > 0 && x.id < w.nextId
    ensures var r := Invoke(w, t, now); Total(r, Is(x)) == Total(w, Is(x)) + One(Is(x)(t)) && x.id < r.nextId
  {
    hide Pending, Called;
    InvokeCounts(w, t, now, Is(x));
  }

  lemma EraseCounts(w: Wheel, b: nat, i: nat, p: Timer -> bool)
    requires b < w.Size() && i < |w.buckets[b]|
    ensures Total(Replace(w, b, DropAt(w.buckets[b], i)), p) == Total(w, p) - One(p(w.buckets[b][i]))
  {
    DropCounts(w.buckets[b], i, p);
    PendingReplace(w.buckets, b, DropAt(w.buckets[b], i), p);
  }

  // ---------- safe intervals, and an unsafe one

  /** An interval of at least a tick and less than a revolution is safe. */
  lemma WithinRevolutionIsSafe(t: Timer, size: nat)
    requires size > 0 && t.callback.Every? && TICK <= t.callback.interval < size * TICK
    ensures SafeTimer(t, size)
  {
    assert 0 < t.callback.interval / TICK < size;
  }

  ghost predicate SafeBucket(w: Wheel, j: nat)
    requires j < w.Size()
  {
    forall t :: t in w.buckets[j] ==> SafeTimer(t, w.Size())
  }

  ghost predicate AllSafe(w: Wheel) {
    w.Size() > 0 && forall j :: 0 <= j < w.Size() ==> SafeBucket(w, j)
  }

  lemma SafeReturns(w: Wheel, now: nat)
    requires AllSafe(w)
    ensures Returns(w, now)
  {
    forall j | 0 <= j < w.Size()
      ensures BucketReturns(w, j, now)
    {
      assert SafeBucket(w, j);
    }
  }

  lemma EnqueueKeepsSafe(w: Wheel, t: Timer)
    requires AllSafe(w) && SafeTimer(t, w.Size())
    ensures AllSafe(Enqueue(w, t))
  {
    forall j | 0 <= j < w.Size()
      ensures SafeBucket(Enqueue(w, t), j)
    {
      assert SafeBucket(w, j);
    }
  }

  lemma ReplaceKeepsSafe(w: Wheel, b: nat, list: seq<Timer>)
    requires AllSafe(w) && b < w.Size() && forall t :: t in list ==> t in w.buckets[b]
    ensures AllSafe(Replace(w, b, list))
  {
    forall j | 0 <= j < w.Size()
      ensures SafeBucket(Replace(w, b, list), j)
    {
      assert SafeBucket(w, j);
    }
  }

  lemma {:induction false} InvokeAllKeepsSafe(w: Wheel, due: seq<Timer>, now: nat)
    requires AllSafe(w) && forall t :: t in due ==> SafeTimer(t, w.Size())
    ensures AllSafe(InvokeAll(w, due, now))
    decreases |due|
  {
    if due != [] {
      var logged := w.(calls := w.calls + [Call(due[0], now)]);
      assert forall j :: 0 <= j < w.Size() ==> SafeBucket(w, j) == SafeBucket(logged, j);
      if due[0].callback.Every? {
        assert SafeTimer(due[0], w.Size());
        EnqueueKeepsSafe(logged, Renewal(w, due[0]));
      }
      InvokeAllKeepsSafe(Invoke(w, due[0], now), due[1..], now);
    }
  }

  lemma {:induction false} TickKeepsSafe(w: Wheel, now: nat)
    requires AllSafe(w)
    ensures AllSafe(Tick(w, now))
    decreases if w.current <= now then now - w.current + 1 else 0
  {
    if w.current <= now {
      var b := BucketOf(w.current, w.Size());
      assert SafeBucket(w, b);
      DueIsPart(w.buckets[b], now);
      ReplaceKeepsSafe(w, b, Rest(w.buckets[b], now));
      InvokeAllKeepsSafe(Replace(w, b, Rest(w.buckets[b], now)), Due(w.buckets[b], now), now);
      var r := Sweep(w, now);
      assert forall j :: 0 <= j < r.Size() ==> SafeBucket(r, j) == SafeBucket(Advance(r), j);
      TickKeepsSafe(Advance(r), now);
    }
  }

  predicate SafeOp(op: Op, size: nat)
    requires size > 0
  {
    op.DoScheduleRecurring? ==> (op.interval / TICK) % size != 0
  }

  /** Over every run that schedules safe intervals only, every tick returns. */
  lemma {:induction false} SafeRunReturns(size: nat, ops: seq<Op>)
    requires size > 0 && forall op :: op in ops ==> SafeOp(op, size)
    ensures RunReturns(size, ops) && AllSafe(Run(size, ops))
  {
    if ops != [] {
      SafeRunReturns(size, ops[..|ops|-1]);
      ApplyKeepsSafe(Run(size, ops[..|ops|-1]), ops[|ops|-1]);
    }
  }

  lemma ApplyKeepsSafe(w: Wheel, op: Op)
    requires AllSafe(w) && SafeOp(op, w.Size())
    ensures AllSafe(Apply(w, op)) && (op.DoTick? ==> Returns(w, op.now))
  {
    match op
    case DoSchedule(duration, tag) => EnqueueKeepsSafe(w, Timer(w.nextId, w.current + duration, Once(tag), w.current));
    case DoScheduleAt(time, tag) => EnqueueKeepsSafe(w, Timer(w.nextId, time, Once(tag), w.current));
    case DoScheduleRecurring(interval, tag) =>
      EnqueueKeepsSafe(w, Timer(w.nextId, w.current + interval, Every(interval, tag), w.current));
    case DoCancel(id) =>
      var b := BucketWith(w.buckets, id, 0);
      if b < w.Size() {
        ReplaceKeepsSafe(w, b, DropAt(w.buckets[b], PositionIn(w.buckets[b], id)));
      }
    case DoTick(now) =>
      SafeReturns(w, now);
      TickKeepsSafe(w, now);
    case DoClear =>
      assert forall j :: 0 <= j < w.Size() ==> SafeBucket(Clear(w), j);
  }

  /** A recurring timer of a whole revolution on a new wheel: the first tick may come at any time before
      its expiry, and does not return at or after it. */
  lemma WholeRevolutionLoops(size: nat, tag: nat, now: nat)
    requires size > 0
    ensures var w := Run(size, [DoScheduleRecurring(size * TICK, tag)]);
            && (Returns(w, now) <==> now < size * TICK)
            && (now >= size * TICK ==> forall n: nat :: TickRounds(w, 0, now, n).0.current <= now)
  {
    var op := DoScheduleRecurring(size * TICK, tag);
    assert [op][..0] == [];
    assert Run(size, [op]) == Enqueue(Start(size), Timer(1, size * TICK, Every(size * TICK, tag), 0));
    WholeRevolution(size);
    hide Run;
    LoneTimerReturns(size, tag, now);
    if now >= size * TICK {
      TickReturnsIff(Run(size, [op]), now);
    }
  }

  lemma WholeRevolution(size: nat)
    requires size > 0
    ensures BucketOf(size * TICK, size) == 0 && BucketOf(0, size) == 0
  {
    var rev := size * TICK;
    RemainderUnique(rev, TICK, size, 0);
    assert rev / TICK == size;
    RemainderUnique(size, size, 1, 0);
    RemainderUnique(0, size, 0, 0);
  }

  lemma LoneTimerReturns(size: nat, tag: nat, now: nat)
    requires size > 0
    ensures Returns(Enqueue(Start(size), Timer(1, size * TICK, Every(size * TICK, tag), 0)), now) <==> now < size * TICK
  {
    WholeRevolution(size);
    var rev := size * TICK;
    var t := Timer(1, rev, Every(rev, tag), 0);
    var w := Enqueue(Start(size), t);
    assert !SafeTimer(t, size);
    hide BucketOf, SafeTimer;
    assert w.buckets[0] == [t];
    forall j | 0 <= j < size
      ensures BucketReturns(w, j, now) <==> j != 0 || now < rev
    {
      if j == 0 {
        assert t in w.buckets[0];
      }
    }
    assert BucketReturns(w, 0, now) <==> now < rev;
  }
}

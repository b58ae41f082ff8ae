/** The timer wheel, updated in place. */
module TimerWheels {
  import opened Lists
  import opened WheelModel
  import opened WheelLaws
  import opened WheelExact

  class TimerWheel {
    const wheelSize: nat
    var wheels: seq<seq<Timer>>
    var current: nat
    var nextId: nat
    var calls: seq<Call>     // the callbacks run so far, which is all that callbacks do here

    constructor (wheelSize: nat)
      requires wheelSize > 0
      ensures Valid() && View() == Start(wheelSize) && this.wheelSize == wheelSize
      ensures (forall j :: 0 <= j < wheelSize ==> wheels[j] == []) && current == 0 && nextId == 1 && calls == []
    {
      this.wheelSize := wheelSize;
      wheels := seq(wheelSize, _ => []);
      current, nextId, calls := 0, 1, [];
    }

    ghost predicate Valid()
      reads this
    {
      |wheels| == wheelSize > 0
    }

    ghost function View(): Wheel
      reads this
    {
      Wheel(wheels, current, nextId, calls)
    }

    method Emplace(expire: nat, callback: Callback) returns (id: nat)
      requires Valid()
      modifies this`wheels, this`nextId
      ensures Valid() && id == old(nextId)
      ensures View() == Enqueue(old(View()), Timer(id, expire, callback, current))
    {
      id := nextId;
      nextId := nextId + 1;
      var bucket := BucketOf(expire, wheelSize);
      wheels := wheels[bucket := wheels[bucket] + [Timer(id, expire, callback, current)]];
    }

    method Schedule(duration: nat, tag: nat) returns (id: nat)
      requires Valid()
      modifies this`wheels, this`nextId
      ensures Valid() && id == old(nextId) && nextId == id + 1 && View() == Apply(old(View()), DoSchedule(duration, tag))
      ensures var b := (current + duration) / 1_000_000 % wheelSize;
              wheels == old(wheels)[b := old(wheels)[b] + [Timer(id, current + duration, Once(tag), current)]]
    {
      id := Emplace(current + duration, Once(tag));
    }

    method ScheduleAt(time: nat, tag: nat) returns (id: nat)
      requires Valid()
      modifies this`wheels, this`nextId
      ensures Valid() && id == old(nextId) && nextId == id + 1 && View() == Apply(old(View()), DoScheduleAt(time, tag))
      ensures var b := (time) / 1_000_000 % wheelSize;
              wheels == old(wheels)[b := old(wheels)[b] + [Timer(id, time, Once(tag), current)]]
    {
      id := Emplace(time, Once(tag));
    }

    method ScheduleRecurring(interval: nat, tag: nat) returns (id: nat)
      requires Valid()
      modifies this`wheels, this`nextId
      ensures Valid() && id == old(nextId) && nextId == id + 1 && View() == Apply(old(View()), DoScheduleRecurring(interval, tag))
      ensures var b := (current + interval) / 1_000_000 % wheelSize;
              wheels == old(wheels)[b := old(wheels)[b] + [Timer(id, current + interval, Every(interval, tag), current)]]
    {
      id := Emplace(current + interval, Every(interval, tag));
    }

    /** Search the buckets in turn for the id and erase its first timer. */
    method Cancel(id: nat) returns (found: bool)
      requires Valid()
      modifies this`wheels
      ensures Valid() && View() == Apply(old(View()), DoCancel(id))
      ensures !found ==> wheels == old(wheels)
      ensures found ==> exists j, i :: 0 <= j < wheelSize && 0 <= i < |old(wheels)[j]| && old(wheels)[j][i].id == id
                                       && wheels == old(wheels)[j := DropAt(old(wheels)[j], i)]
      ensures found <==> exists j, t :: 0 <= j < wheelSize && t in old(wheels[j]) && t.id == id
    {
      var b := 0;
      while b < |wheels|
        invariant b <= |wheels| && wheels == old(wheels)
        invariant BucketWith(wheels, id, 0) == BucketWith(wheels, id, b)
        invariant forall j, t :: 0 <= j < b && t in wheels[j] ==> t.id != id
      {
        var i := 0;
        while i < |wheels[b]|
          invariant i <= |wheels[b]| && wheels == old(wheels)
          invariant forall k :: 0 <= k < i ==> wheels[b][k].id != id
        {
          if wheels[b][i].id == id {
            PositionIs(wheels[b], id, i);
            wheels := wheels[b := DropAt(wheels[b], i)];
            assert old(wheels[b])[i] in old(wheels[b]);
            return true;
          }
          i := i + 1;
        }
        PositionIs(wheels[b], id, i);
        b := b + 1;
      }
      return false;
    }

    lemma PositionIs(list: seq<Timer>, id: nat, i: nat)
      requires i <= |list| && (forall k :: 0 <= k < i ==> list[k].id != id) && (i < |list| ==> list[i].id == id)
      ensures PositionIn(list, id) == i
    {
    }

    /** Run a timer's callback; a recurring one schedules itself again. */
    method RunCallback(t: Timer, now: nat)
      requires Valid()
      modifies this`wheels, this`nextId, this`calls
      ensures Valid() && View() == Invoke(old(View()), t, now)
      ensures calls == old(calls) + [Call.Call(t, now)]
      ensures match t.callback
              case Once(_) => wheels == old(wheels) && nextId == old(nextId)
              case Every(interval, _) =>
                var b := (current + interval) / 1_000_000 % wheelSize;
                && nextId == old(nextId) + 1
                && wheels == old(wheels)[b := old(wheels)[b] + [Timer(old(nextId), current + interval, t.callback, current)]]
    {
      calls := calls + [Call.Call(t, now)];
      match t.callback {
        case Once(_) =>
        case Every(interval, tag) =>
          var id := ScheduleRecurring(interval, tag);
      }
    }

    /** One bucket: erase and run what is due, while callbacks may enter the wheel. */
    method ScanBucket(bucket: nat, now: nat) returns (expired: nat)
      requires Valid() && current % TICK == 0 && bucket == BucketOf(current, wheelSize)
      requires NoneLoops(wheels[bucket], current, wheelSize, now)
      modifies this`wheels, this`nextId, this`calls
      ensures Valid() && View() == Sweep(old(View()), now)
      ensures expired == |calls| - |old(calls)|
    {
      ghost var goal := Scan(View(), bucket, 0, now);
      ScanIsSweep(View(), bucket, 0, now);
      assert wheels[bucket][0..] == wheels[bucket];
      assert wheels[bucket][..0] + Rest(wheels[bucket], now) == Rest(wheels[bucket], now);
      expired := 0;
      var it := 0;
      while it < |wheels[bucket]|
        invariant Valid() && current == old(current) && it <= |wheels[bucket]|
        invariant NoneLoops(wheels[bucket], current, wheelSize, now)
        invariant goal == Scan(View(), bucket, it, now)
        invariant expired == |calls| - |old(calls)|
        decreases |Due(wheels[bucket][it..], now)|, |wheels[bucket]| - it
      {
        ScanStepAdvances(View(), bucket, it, now);
        if wheels[bucket][it].expire <= now {
          RunCallback(wheels[bucket][it], now);
          expired := expired + 1;
          wheels := wheels[bucket := DropAt(wheels[bucket], it)];
        } else {
          it := it + 1;
        }
      }
    }

    /** Advance the wheel past `now`, running what expires, on the wheels on which that ever ends. */
    method Tick(now: nat) returns (expired: nat)
      requires Valid() && current % TICK == 0 && Returns(View(), now)
      modifies this`wheels, this`current, this`nextId, this`calls
      ensures Valid() && current % TICK == 0 && View() == Apply(old(View()), DoTick(now))
      ensures if old(current) <= now then now < current <= now + 1_000_000 else View() == old(View())
      ensures expired == |calls| - |old(calls)|
    {
      hide Returns, Quiet, NoneLoops, Sweep;
      TickTime(View(), now);
      expired := 0;
      while current <= now
        invariant Valid() && current % TICK == 0 && Returns(View(), now)
        invariant WheelLaws.Tick(View(), now) == WheelLaws.Tick(old(View()), now)
        invariant expired == |calls| - |old(calls)|
        decreases if current <= now then now - current + 1 else 0
      {
        SweepKeepsReturns(View(), now);
        var n := ScanBucket(BucketOf(current, wheelSize), now);
        expired := expired + n;
        current := current + TICK;
      }
    }

    /** The number of timers in all the buckets. */
    method PendingCount() returns (count: nat)
      requires Valid()
      ensures count == Pending(wheels, Anything())
    {
      count := 0;
      var b := 0;
      while b < |wheels|
        invariant b <= |wheels| && count == Pending(wheels[..b], Anything())
      {
        assert wheels[..b + 1][..b] == wheels[..b];
        CountAnything(wheels[b]);
        count := count + |wheels[b]|;
        b := b + 1;
      }
      assert wheels[..b] == wheels;
    }

    /** Drop every timer and return to time zero; ids go on. */
    method Clear()
      requires Valid()
      modifies this`wheels, this`current
      ensures Valid() && View() == Apply(old(View()), DoClear)
      ensures (forall j :: 0 <= j < wheelSize ==> wheels[j] == []) && current == 0
    {
      var b := 0;
      while b < |wheels|
        invariant b <= |wheels| == wheelSize && current == old(current)
        invariant forall j :: 0 <= j < b ==> wheels[j] == []
      {
        wheels := wheels[b := []];
        b := b + 1;
      }
      current := 0;
    }
  }
}

/** The lock-free single-producer single-consumer ring: every interleaving of the atomic actions of
    push and pop, with each side reading possibly stale values of the other side's index. */
module SpscSteps {
  import opened Remainders

  /** Where the producer stands inside push, and what its local variables hold. */
  datatype Producer<T> =
    | Resting
    | LoadedTail(ele: T, t: nat)
    | LoadedBoth(ele: T, t: nat, h: nat)
    | FoundRoom(ele: T, t: nat)
    | Written(ele: T, t: nat)

  /** Where the consumer stands inside pop. */
  datatype Consumer<T> =
    | Resting
    | LoadedTail(t: nat)
    | LoadedBoth(t: nat, h: nat)
    | FoundElement(h: nat)
    | Copied(h: nat, ele: T)

  /** The ring with the modification order of its two atomics. `seenHead` and `seenTail` are the
      positions in those orders of the newest value each side has read of the other's index: by
      coherence it will not read an older one again. */
  datatype Ring<T> = Ring(
    buf: seq<T>,
    heads: seq<nat>,
    tails: seq<nat>,
    seenHead: nat,
    seenTail: nat,
    producer: Producer<T>,
    consumer: Consumer<T>,
    pushed: seq<T>,
    popped: seq<T>)

  datatype Step<T> =
    | LoadOwnTail(ele: T)
    | AcquireHead(position: nat)
    | TestFull
    | WriteSlot
    | ReleaseTail
    | AcquireTail(position: nat)
    | LoadOwnHead
    | TestEmpty
    | ReadSlot
    | ReleaseHead

  function Start<T>(buf: seq<T>): Ring<T> {
    Ring(buf, [0], [0], 0, 0, Producer.Resting, Consumer.Resting, [], [])
  }

  function Last(s: seq<nat>): nat
    requires s != []
  {
    s[|s| - 1]
  }

  predicate Enabled<T>(r: Ring<T>, step: Step<T>) {
    match step
    case LoadOwnTail(_) => r.producer.Resting? && r.tails != []
    case AcquireHead(p) => r.producer.LoadedTail? && r.seenHead <= p < |r.heads|
    case TestFull => r.producer.LoadedBoth? && r.buf != []
    case WriteSlot => r.producer.FoundRoom? && r.producer.t < |r.buf|
    case ReleaseTail => r.producer.Written? && r.buf != []
    case AcquireTail(p) => r.consumer.Resting? && r.seenTail <= p < |r.tails|
    case LoadOwnHead => r.consumer.LoadedTail? && r.heads != []
    case TestEmpty => r.consumer.LoadedBoth?
    case ReadSlot => r.consumer.FoundElement? && r.consumer.h < |r.buf|
    case ReleaseHead => r.consumer.Copied? && r.buf != []
  }

  function Do<T>(r: Ring<T>, step: Step<T>): Ring<T>
    requires Enabled(r, step)
  {
    match step
    case LoadOwnTail(ele) => r.(producer := Producer.LoadedTail(ele, Last(r.tails)))
    case AcquireHead(p) =>
      r.(seenHead := p, producer := Producer.LoadedBoth(r.producer.ele, r.producer.t, r.heads[p]))
    case TestFull =>
      r.(producer := if (r.producer.t + 1) % |r.buf| == r.producer.h then Producer.Resting
                     else FoundRoom(r.producer.ele, r.producer.t))
    case WriteSlot =>
      r.(buf := r.buf[r.producer.t := r.producer.ele], producer := Written(r.producer.ele, r.producer.t))
    case ReleaseTail =>
      r.(tails := r.tails + [(r.producer.t + 1) % |r.buf|], pushed := r.pushed + [r.producer.ele],
         producer := Producer.Resting)
    case AcquireTail(p) => r.(seenTail := p, consumer := Consumer.LoadedTail(r.tails[p]))
    case LoadOwnHead => r.(consumer := Consumer.LoadedBoth(r.consumer.t, Last(r.heads)))
    case TestEmpty =>
      r.(consumer := if r.consumer.t == r.consumer.h then Consumer.Resting else FoundElement(r.consumer.h))
    case ReadSlot => r.(consumer := Copied(r.consumer.h, r.buf[r.consumer.h]))
    case ReleaseHead =>
      r.(heads := r.heads + [(r.consumer.h + 1) % |r.buf|], popped := r.popped + [r.consumer.ele],
         consumer := Consumer.Resting)
  }

  /** A run: every state after the first follows from its predecessor by some enabled step. */
  ghost predicate IsRun<T(!new)>(run: seq<Ring<T>>) {
    && run != []
    && run[0].buf != [] && run[0] == Start(run[0].buf)
    && forall i :: 0 <= i < |run| - 1 ==> Follows(run[i], run[i + 1])
  }

  ghost predicate Follows<T(!new)>(r: Ring<T>, r': Ring<T>) {
    exists step :: Enabled(r, step) && Do(r, step) == r'
  }

  // ---------- the invariant

  /** How many elements have been published to and taken from the ring. */
  function Published<T>(r: Ring<T>): int { |r.tails| - 1 }
  function Taken<T>(r: Ring<T>): int { |r.heads| - 1 }

  ghost predicate Counts(s: seq<nat>, n: nat)
    requires n > 0
  {
    forall i :: 0 <= i < |s| ==> s[i] == i % n
  }

  ghost predicate Holds<T>(r: Ring<T>, i: nat)
    requires r.buf != [] && i < |r.pushed|
  {
    r.buf[i % |r.buf|] == r.pushed[i]
  }

  ghost predicate ProducerOk<T>(r: Ring<T>)
    requires r.buf != []
  {
    var n, p := |r.buf|, Published(r);
    match r.producer
    case Resting => true
    case LoadedTail(_, t) => t == p % n
    case LoadedBoth(_, t, h) => t == p % n && h == r.seenHead % n
    case FoundRoom(_, t) => t == p % n && p + 1 < r.seenHead + n
    case Written(ele, t) => t == p % n && p + 1 < r.seenHead + n && t < n && r.buf[t] == ele
  }

  ghost predicate ConsumerOk<T>(r: Ring<T>)
    requires r.buf != []
  {
    var n, c := |r.buf|, Taken(r);
    match r.consumer
    case Resting => true
    case LoadedTail(t) => t == r.seenTail % n
    case LoadedBoth(t, h) => t == r.seenTail % n && h == c % n
    case FoundElement(h) => h == c % n && c < r.seenTail
    case Copied(h, ele) => h == c % n && 0 <= c < r.seenTail && c < |r.pushed| && ele == r.pushed[c]
  }

  ghost predicate Inv<T>(r: Ring<T>) {
    && r.buf != [] && r.heads != [] && r.tails != []
    && Counts(r.heads, |r.buf|) && Counts(r.tails, |r.buf|)
    && r.seenHead <= Taken(r) <= r.seenTail <= Published(r) < r.seenHead + |r.buf|
    && |r.pushed| == Published(r) && r.popped == r.pushed[..Taken(r)]
    && (forall i :: Taken(r) <= i < Published(r) ==> Holds(r, i))
    && ProducerOk(r) && ConsumerOk(r)
  }

  // ---------- the full and empty tests on stale views

  /** The producer's test, on whatever value of head_ it read: it says full exactly when that view
      leaves n - 1 elements in the ring, and when it does not there really is room now. */
  lemma FullTestIsExact<T>(r: Ring<T>)
    requires Inv(r) && r.producer.LoadedBoth?
    ensures (r.producer.t + 1) % |r.buf| == r.producer.h <==> Published(r) - r.seenHead == |r.buf| - 1
    ensures (r.producer.t + 1) % |r.buf| != r.producer.h ==> Published(r) - Taken(r) < |r.buf| - 1
  {
    var n, p := |r.buf|, Published(r);
    NextRemainder(p, n);
    if (p + 1) % n == r.seenHead % n && p + 1 < r.seenHead + n {
      SameRemainder(r.seenHead, p + 1, n);
    }
    if p + 1 == r.seenHead + n {
      WrapOnce(r.seenHead, n);
    }
  }

  /** The consumer's test, on whatever value of tail_ it read: it says empty exactly when that view
      has nothing left, and when it does not there really is an element now. */
  lemma EmptyTestIsExact<T>(r: Ring<T>)
    requires Inv(r) && r.consumer.LoadedBoth?
    ensures r.consumer.t == r.consumer.h <==> r.seenTail == Taken(r)
    ensures r.consumer.t != r.consumer.h ==> Taken(r) < Published(r)
  {
    if r.consumer.t == r.consumer.h {
      SameRemainder(Taken(r), r.seenTail, |r.buf|);
    }
  }

  // ---------- every step keeps the invariant

  lemma WriteKeepsContents<T>(r: Ring<T>)
    requires Inv(r) && Enabled(r, WriteSlot)
    ensures Inv(Do(r, WriteSlot))
  {
    var r' := Do(r, WriteSlot);
    forall i | Taken(r) <= i < Published(r)
      ensures Holds(r', i)
    {
      assert Holds(r, i);
      if i % |r.buf| == r.producer.t {
        SameRemainder(i, Published(r), |r.buf|);
      }
    }
  }

  lemma ReleaseTailKeeps<T>(r: Ring<T>)
    requires Inv(r) && Enabled(r, ReleaseTail)
    ensures Inv(Do(r, ReleaseTail))
  {
    var r' := Do(r, ReleaseTail);
    NextRemainder(Published(r), |r.buf|);
    forall i | Taken(r') <= i < Published(r')
      ensures Holds(r', i)
    {
      if i < Published(r) {
        assert Holds(r, i);
      }
    }
  }

  lemma ReleaseHeadKeeps<T>(r: Ring<T>)
    requires Inv(r) && Enabled(r, ReleaseHead)
    ensures Inv(Do(r, ReleaseHead))
  {
    var r' := Do(r, ReleaseHead);
    NextRemainder(Taken(r), |r.buf|);
    PrefixGrows(r.pushed, Taken(r));
    forall i | Taken(r') <= i < Published(r')
      ensures Holds(r', i)
    {
      assert Holds(r, i);
    }
  }

  lemma PrefixGrows<T>(s: seq<T>, k: nat)
    requires k < |s|
    ensures s[..k + 1] == s[..k] + [s[k]]
  {
  }

  lemma StepKeepsInv<T>(r: Ring<T>, step: Step<T>)
    requires Inv(r) && Enabled(r, step)
    ensures Inv(Do(r, step))
  {
    match step
    case WriteSlot => WriteKeepsContents(r);
    case ReleaseTail => ReleaseTailKeeps(r);
    case ReleaseHead => ReleaseHeadKeeps(r);
    case TestFull => FullTestIsExact(r); QuietStep(r, step);
    case TestEmpty => EmptyTestIsExact(r); QuietStep(r, step);
    case ReadSlot => assert Holds(r, Taken(r)); QuietStep(r, step);
    case _ => QuietStep(r, step);
  }

  /** Steps that only change what one side has read leave the shared part alone. */
  lemma QuietStep<T>(r: Ring<T>, step: Step<T>)
    requires Inv(r) && Enabled(r, step)
    requires !step.WriteSlot? && !step.ReleaseTail? && !step.ReleaseHead?
    requires step.TestFull? ==> Do(r, step).producer.FoundRoom? ==> Published(r) + 1 < r.seenHead + |r.buf|
    requires step.TestEmpty? ==> Do(r, step).consumer.FoundElement? ==> Taken(r) < r.seenTail
    requires step.ReadSlot? ==> Holds(r, Taken(r))
    ensures Inv(Do(r, step))
  {
    assert forall i :: Taken(r) <= i < Published(r) ==> Holds(Do(r, step), i) == Holds(r, i);
  }

  // ---------- what holds in every reachable state

  /** Every state of every run, whatever the interleaving and however stale the loads. */
  lemma {:induction false} RunKeepsInv<T(!new)>(run: seq<Ring<T>>, i: nat)
    requires IsRun(run) && i < |run|
    ensures Inv(run[i])
  {
    if i > 0 {
      RunKeepsInv(run, i - 1);
      assert Follows(run[i - 1], run[i]);
      var step :| Enabled(run[i - 1], step) && Do(run[i - 1], step) == run[i];
      StepKeepsInv(run[i - 1], step);
    }
  }

  /** First in, first out: what has been popped is a prefix of what has been pushed, and the rest,
      at most n - 1 elements, is exactly what the slots between the two indices hold, in order. */
  lemma FirstInFirstOut<T(!new)>(run: seq<Ring<T>>, i: nat)
    requires IsRun(run) && i < |run|
    ensures var r := run[i];
            && r.buf != [] && r.popped <= r.pushed
            && |r.pushed| - |r.popped| <= |r.buf| - 1
            && forall k :: |r.popped| <= k < |r.pushed| ==> r.pushed[k] == r.buf[k % |r.buf|]
  {
    RunKeepsInv(run, i);
    var r := run[i];
    forall k | |r.popped| <= k < |r.pushed|
      ensures r.pushed[k] == r.buf[k % |r.buf|]
    {
      assert Holds(r, k);
    }
  }

  /** The two sides never touch the same slot at the same time: the slot the producer is about to
      write, or has written and not yet published, is not the one the consumer is about to read; and
      the element being read was published before the consumer's snapshot of the tail. */
  lemma NoSlotIsShared<T(!new)>(run: seq<Ring<T>>, i: nat)
    requires IsRun(run) && i < |run|
    requires run[i].producer.FoundRoom? || run[i].producer.Written?
    requires run[i].consumer.FoundElement?
    ensures run[i].producer.t != run[i].consumer.h
    ensures Taken(run[i]) < run[i].seenTail <= Published(run[i])
  {
    RunKeepsInv(run, i);
    var r := run[i];
    if r.producer.t == r.consumer.h {
      SameRemainder(Taken(r), Published(r), |r.buf|);
    }
  }

  // ---------- one side uninterrupted

  /** These steps, taken one after another, each enabled, lead from one state to the other. */
  ghost predicate Reaches<T>(r: Ring<T>, steps: seq<Step<T>>, r': Ring<T>)
    decreases |steps|
  {
    if steps == [] then r == r'
    else Enabled(r, steps[0]) && Reaches(Do(r, steps[0]), steps[1..], r')
  }

  lemma {:induction false} ReachesThrough<T>(r: Ring<T>, a: seq<Step<T>>, mid: Ring<T>, b: seq<Step<T>>, r': Ring<T>)
    requires Reaches(r, a, mid) && Reaches(mid, b, r')
    ensures Reaches(r, a + b, r')
    decreases |a|
  {
    if a == [] {
      assert a + b == b;
    } else {
      ReachesThrough(Do(r, a[0]), a[1..], mid, b, r');
      assert (a + b)[1..] == a[1..] + b;
    }
  }

  lemma ReachesNext<T>(r: Ring<T>, steps: seq<Step<T>>, mid: Ring<T>, step: Step<T>)
    requires Inv(mid) && Reaches(r, steps, mid) && Enabled(mid, step)
    ensures Inv(Do(mid, step)) && Reaches(r, steps + [step], Do(mid, step))
  {
    StepKeepsInv(mid, step);
    ReachesThrough(r, steps, mid, [step], Do(mid, step));
  }

  /** The loads and the test of a push, whose view of the head is the newest. */
  lemma PushLooks<T>(r: Ring<T>, ele: T) returns (steps: seq<Step<T>>, after: Ring<T>)
    requires Inv(r) && r.producer.Resting?
    ensures Inv(after) && Reaches(r, steps, after) && Last(r.tails) < |r.buf|
    ensures var full := (Last(r.tails) + 1) % |r.buf| == Last(r.heads);
            && full == (|r.pushed| - |r.popped| == |r.buf| - 1)
            && after == r.(seenHead := |r.heads| - 1,
                           producer := if full then Producer.Resting else FoundRoom(ele, Last(r.tails)))
  {
    hide Holds, ConsumerOk, ProducerOk, Reaches;
    steps, after := [], r;
    EmptyReaches(r);
    ReachesNext(r, steps, after, LoadOwnTail(ele));
    steps, after := steps + [LoadOwnTail(ele)], Do(after, LoadOwnTail(ele));
    ReachesNext(r, steps, after, AcquireHead(|r.heads| - 1));
    steps, after := steps + [AcquireHead(|r.heads| - 1)], Do(after, AcquireHead(|r.heads| - 1));
    FullTestIsExact(after);
    ReachesNext(r, steps, after, TestFull);
    steps, after := steps + [TestFull], Do(after, TestFull);
  }

  lemma EmptyReaches<T>(r: Ring<T>)
    ensures Reaches(r, [], r)
  {
  }

  /** Its write and its store. */
  lemma PushStores<T>(r: Ring<T>) returns (steps: seq<Step<T>>, after: Ring<T>)
    requires Inv(r) && r.producer.FoundRoom?
    ensures Inv(after) && Reaches(r, steps, after)
    ensures after == r.(buf := r.buf[r.producer.t := r.producer.ele], tails := r.tails + [(r.producer.t + 1) % |r.buf|],
                        pushed := r.pushed + [r.producer.ele], producer := Producer.Resting)
  {
    hide Holds, ConsumerOk, Reaches;
    steps, after := [], r;
    EmptyReaches(r);
    ReachesNext(r, steps, after, WriteSlot);
    steps, after := steps + [WriteSlot], Do(after, WriteSlot);
    ReachesNext(r, steps, after, ReleaseTail);
    steps, after := steps + [ReleaseTail], Do(after, ReleaseTail);
  }

  /** An uninterrupted push: the steps above lead to the state with the element appended, or, on a
      ring of n - 1 elements, back to the producer's rest. */
  lemma PushRun<T>(r: Ring<T>, ele: T) returns (steps: seq<Step<T>>, after: Ring<T>)
    requires Inv(r) && r.producer.Resting?
    ensures Inv(after) && Reaches(r, steps, after) && after.producer.Resting? && after.consumer == r.consumer
    ensures after.heads == r.heads && after.popped == r.popped && Last(r.tails) < |r.buf|
    ensures var next := (Last(r.tails) + 1) % |r.buf|;
            && (next == Last(r.heads)) == (|r.pushed| - |r.popped| == |r.buf| - 1)
            && if next == Last(r.heads) then after.tails == r.tails && after.pushed == r.pushed && after.buf == r.buf
               else after.tails == r.tails + [next] && after.pushed == r.pushed + [ele]
                    && after.buf == r.buf[Last(r.tails) := ele]
  {
    hide Reaches, Counts, Holds, ProducerOk, ConsumerOk;
    steps, after := PushLooks(r, ele);
    if after.producer.FoundRoom? {
      var more, end := PushStores(after);
      ReachesThrough(r, steps, after, more, end);
      steps, after := steps + more, end;
    }
  }

  /** The loads and the test of a pop, whose view of the tail is the newest. */
  lemma PopLooks<T>(r: Ring<T>) returns (steps: seq<Step<T>>, after: Ring<T>)
    requires Inv(r) && r.consumer.Resting?
    ensures Inv(after) && Reaches(r, steps, after) && Last(r.heads) < |r.buf|
    ensures var empty := Last(r.tails) == Last(r.heads);
            && empty == (|r.pushed| == |r.popped|)
            && after == r.(seenTail := |r.tails| - 1,
                           consumer := if empty then Consumer.Resting else FoundElement(Last(r.heads)))
  {
    hide Holds, ConsumerOk, ProducerOk, Reaches;
    steps, after := [], r;
    EmptyReaches(r);
    ReachesNext(r, steps, after, AcquireTail(|r.tails| - 1));
    steps, after := steps + [AcquireTail(|r.tails| - 1)], Do(after, AcquireTail(|r.tails| - 1));
    ReachesNext(r, steps, after, LoadOwnHead);
    steps, after := steps + [LoadOwnHead], Do(after, LoadOwnHead);
    EmptyTestIsExact(after);
    ReachesNext(r, steps, after, TestEmpty);
    steps, after := steps + [TestEmpty], Do(after, TestEmpty);
  }

  /** Its read and its store. */
  lemma PopTakes<T>(r: Ring<T>) returns (steps: seq<Step<T>>, after: Ring<T>)
    requires Inv(r) && r.consumer.FoundElement? && r.consumer.h < |r.buf|
    ensures Inv(after) && Reaches(r, steps, after)
    ensures after == r.(heads := r.heads + [(r.consumer.h + 1) % |r.buf|], popped := r.popped + [r.buf[r.consumer.h]],
                        consumer := Consumer.Resting)
  {
    hide Holds, ProducerOk, Reaches;
    steps, after := [], r;
    EmptyReaches(r);
    ReachesNext(r, steps, after, ReadSlot);
    steps, after := steps + [ReadSlot], Do(after, ReadSlot);
    ReachesNext(r, steps, after, ReleaseHead);
    steps, after := steps + [ReleaseHead], Do(after, ReleaseHead);
  }

  /** An uninterrupted pop: the steps above lead to the state without its oldest element, or, on an
      empty ring, back to the consumer's rest. */
  lemma PopRun<T>(r: Ring<T>) returns (steps: seq<Step<T>>, after: Ring<T>)
    requires Inv(r) && r.consumer.Resting?
    ensures Inv(after) && Reaches(r, steps, after) && after.consumer.Resting? && after.producer == r.producer
    ensures after.tails == r.tails && after.pushed == r.pushed && after.buf == r.buf && Last(r.heads) < |r.buf|
    ensures Last(r.tails) == Last(r.heads) <==> |r.pushed| == |r.popped|
    ensures if Last(r.tails) == Last(r.heads) then after.heads == r.heads && after.popped == r.popped
            else after.heads == r.heads + [(Last(r.heads) + 1) % |r.buf|]
                 && after.popped == r.popped + [r.buf[Last(r.heads)]]
  {
    hide Reaches, Counts, Holds, ProducerOk, ConsumerOk;
    steps, after := PopLooks(r);
    if after.consumer.FoundElement? {
      var more, end := PopTakes(after);
      ReachesThrough(r, steps, after, more, end);
      steps, after := steps + more, end;
    }
  }

  /** A push whose view of the head is current fails exactly on a ring of n - 1 elements; in
      particular a ring of one slot never accepts anything. */
  lemma PushOutcome<T(!new)>(run: seq<Ring<T>>, i: nat)
    requires IsRun(run) && i < |run| && run[i].producer.LoadedBoth?
    ensures var r := run[i];
            && r.buf != [] && (Do(r, TestFull).producer.Resting? <==> Published(r) - r.seenHead == |r.buf| - 1)
            && (r.seenHead == Taken(r) ==> (Do(r, TestFull).producer.Resting? <==> |r.pushed| - |r.popped| == |r.buf| - 1))
            && (|r.buf| == 1 ==> Do(r, TestFull).producer.Resting?)
  {
    RunKeepsInv(run, i);
    FullTestIsExact(run[i]);
  }

  /** A pop that fails had seen every element published up to its snapshot already taken. */
  lemma PopOutcome<T(!new)>(run: seq<Ring<T>>, i: nat)
    requires IsRun(run) && i < |run| && run[i].consumer.LoadedBoth?
    ensures Do(run[i], TestEmpty).consumer.Resting? <==> run[i].seenTail == Taken(run[i])
  {
    RunKeepsInv(run, i);
    EmptyTestIsExact(run[i]);
  }
}

/** The queue itself, used from one thread at a time: push and pop are the steps above, taken
    without interruption and reading the newest index. */
module SpscQueues {
  import opened Basics
  import opened SpscSteps

  class SpscQueue<T> {
    const ptr: array<T>
    var head: nat
    var tail: nat
    ghost var ring: Ring<T>

    constructor (slots: array<T>)
      requires slots.Length > 0
      ensures Valid() && ptr == slots && Contents() == []
    {
      ptr := slots;
      head, tail := 0, 0;
      ring := Start(slots[..]);
    }

    ghost predicate Valid()
      reads this, ptr
    {
      && Inv(ring) && ring.producer.Resting? && ring.consumer.Resting?
      && ring.buf == ptr[..] && head == Last(ring.heads) && tail == Last(ring.tails)
    }

    ghost function Contents(): seq<T>
      requires Valid()
      reads this, ptr
    {
      ring.pushed[|ring.popped|..]
    }

    method Push(ele: T) returns (ok: bool)
      requires Valid()
      modifies this`tail, this`ring, ptr
      ensures Valid()
      ensures ok == (|old(Contents())| < ptr.Length - 1)
      ensures Contents() == if ok then old(Contents()) + [ele] else old(Contents())
    {
      ghost var steps, after := PushRun(ring, ele);
      var t := tail;
      var h := head;
      if (t + 1) % ptr.Length == h {
        ring := after;
        return false;
      }
      ptr[t] := ele;
      tail := (t + 1) % ptr.Length;
      ring := after;
      return true;
    }

    method Pop() returns (r: Option<T>)
      requires Valid()
      modifies this`head, this`ring
      ensures Valid()
      ensures r == if old(Contents()) == [] then None else Some(old(Contents())[0])
      ensures Contents() == if r.None? then [] else old(Contents())[1..]
    {
      ghost var steps, after := PopRun(ring);
      var t := tail;
      var h := head;
      if t == h {
        ring := after;
        return None;
      }
      var ele := ptr[h];
      head := (h + 1) % ptr.Length;
      ring := after;
      return Some(ele);
    }
  }
}

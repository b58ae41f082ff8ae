/** The latency histogram: log2 buckets against the recorded samples themselves. */
module LatencySamples {
  import opened Basics
  import opened BitTricks
  import opened Lists
  import opened Remainders

  const BUCKETS := 64

  // ---------- the bucket of a sample

  /** `__builtin_clzll` of a non-zero value. */
  function LeadingZeros(ns: U64): int {
    64 - BitLength(ns)
  }

  function BucketIndex(ns: U64): int {
    if ns == 0 then 0
    else
      var idx := 63 - LeadingZeros(ns);
      if idx < BUCKETS then idx else BUCKETS - 1
  }

  /** Bucket b holds the samples from 2^b up to 2^(b+1), and bucket 0 also holds 0. */
  lemma BucketHolds(ns: U64, b: nat)
    requires b < BUCKETS
    ensures BucketIndex(ns) == b <==> (b == 0 && ns == 0) || Pow2(b) <= ns < Pow2(b + 1)
    ensures 0 <= BucketIndex(ns) < BUCKETS
  {
    if ns > 0 {
      BucketOfPositive(ns);
      var c := BucketIndex(ns);
      hide Pow2, BucketIndex;
      if b < c {
        Pow2Monotone(b + 1, c);
      } else if c < b {
        Pow2Monotone(c + 1, b);
      }
    } else {
      Pow2Monotone(0, b);
    }
  }

  lemma BucketOfPositive(ns: U64)
    requires ns > 0
    ensures var c := BucketIndex(ns); 0 <= c < BUCKETS && Pow2(c) <= ns < Pow2(c + 1)
  {
    Pow2Of64();
    BitLengthBounds(ns);
    hide Pow2, BitLength;
    if BitLength(ns) > 64 {
      Pow2Monotone(64, BitLength(ns) - 1);
    }
    Pow2Monotone(0, BitLength(ns));
  }

  lemma BucketMonotone(x: U64, y: U64)
    requires x <= y
    ensures 0 <= BucketIndex(x) <= BucketIndex(y) < BUCKETS
  {
    BucketHolds(x, 0);
    BucketHolds(y, 0);
    var cx, cy := BucketIndex(x), BucketIndex(y);
    BucketHolds(x, cx);
    BucketHolds(y, cy);
    if cy < cx {
      Pow2Monotone(cy + 1, cx);
    }
  }

  // ---------- counting samples by bucket

  /** How many of the samples lie in bucket b, and in the buckets below b. */
  function InBucket(s: seq<U64>, b: int): nat {
    if s == [] then 0 else InBucket(s[..|s|-1], b) + if BucketIndex(s[|s|-1]) == b then 1 else 0
  }

  function Below(s: seq<U64>, b: int): nat {
    if s == [] then 0 else Below(s[..|s|-1], b) + if BucketIndex(s[|s|-1]) < b then 1 else 0
  }

  /** Recording one more sample. */
  lemma Recorded(s: seq<U64>, ns: U64, b: int)
    ensures InBucket(s + [ns], b) == InBucket(s, b) + if BucketIndex(ns) == b then 1 else 0
    ensures Sum(s + [ns]) == Sum(s) + ns
  {
    assert (s + [ns])[..|s|] == s;
  }

  lemma AddWrapped(a: nat, x: nat)
    ensures (a % TWO_64 + x) % TWO_64 == (a + x) % TWO_64
  {
  }

  lemma {:induction false} BelowNext(s: seq<U64>, b: int)
    ensures Below(s, b + 1) == Below(s, b) + InBucket(s, b)
  {
    if s != [] {
      BelowNext(s[..|s|-1], b);
    }
  }

  lemma {:induction false} BelowEnds(s: seq<U64>)
    ensures Below(s, 0) == 0 && Below(s, BUCKETS) == |s|
  {
    if s != [] {
      BelowEnds(s[..|s|-1]);
      BucketHolds(s[|s|-1], 0);
    }
  }

  lemma {:induction false} BelowWithout(s: seq<U64>, k: nat, b: int)
    requires k < |s|
    ensures Below(s, b) == Below(DropAt(s, k), b) + if BucketIndex(s[k]) < b then 1 else 0
  {
    var n := |s| - 1;
    if k == n {
      assert DropAt(s, k) == s[..n];
    } else {
      BelowWithout(s[..n], k, b);
      assert DropAt(s, k)[..n - 1] == DropAt(s[..n], k);
    }
  }

  lemma MultisetWithout<T>(s: seq<T>, k: nat)
    requires k < |s|
    ensures multiset(DropAt(s, k)) == multiset(s) - multiset{s[k]}
  {
    assert s == s[..k] + ([s[k]] + s[k + 1..]);
  }

  /** The order of the samples does not matter. */
  lemma {:induction false} BelowOfPermutation(s: seq<U64>, t: seq<U64>, b: int)
    requires multiset(s) == multiset(t)
    ensures Below(s, b) == Below(t, b)
    decreases |s|
  {
    if s == [] {
      assert |multiset(t)| == |multiset(s)|;
    } else {
      var n := |s| - 1;
      assert s[n] in multiset(t);
      var k :| 0 <= k < |t| && t[k] == s[n];
      MultisetWithout(s, n);
      MultisetWithout(t, k);
      BelowWithout(s, n, b);
      BelowWithout(t, k, b);
      BelowOfPermutation(DropAt(s, n), DropAt(t, k), b);
    }
  }

  // ---------- order statistics

  ghost predicate Sorted(s: seq<U64>) {
    forall i, j :: 0 <= i < j < |s| ==> s[i] <= s[j]
  }

  /** The samples in ascending order. */
  ghost predicate IsSortOf(s: seq<U64>, samples: seq<U64>) {
    Sorted(s) && multiset(s) == multiset(samples)
  }

  lemma {:induction false} SortExists(samples: seq<U64>)
    ensures exists s :: IsSortOf(s, samples)
  {
    if samples == [] {
      assert IsSortOf([], samples);
    } else {
      var n := |samples| - 1;
      SortExists(samples[..n]);
      var s :| IsSortOf(s, samples[..n]);
      var r := Inserted(s, samples[n]);
      assert samples == samples[..n] + [samples[n]];
      assert IsSortOf(r, samples);
    }
  }

  lemma {:induction false} Inserted(s: seq<U64>, x: U64) returns (r: seq<U64>)
    requires Sorted(s)
    ensures Sorted(r) && multiset(r) == multiset(s) + multiset{x}
    ensures r != [] && r[|r|-1] == if s == [] || s[|s|-1] <= x then x else s[|s|-1]
  {
    if s == [] || s[|s|-1] <= x {
      r := s + [x];
      AppendSorted(s, x);
    } else {
      var last := |s| - 1;
      r := Inserted(s[..last], x);
      AppendSorted(r, s[last]);
      assert s == s[..last] + [s[last]];
      r := r + [s[last]];
    }
  }

  lemma AppendSorted(s: seq<U64>, x: U64)
    requires Sorted(s) && (s != [] ==> s[|s|-1] <= x)
    ensures Sorted(s + [x])
  {
  }

  /** In sorted order, the samples of the lower buckets come first. */
  lemma {:induction false} BelowIsAPrefix(s: seq<U64>, b: int, i: nat)
    requires Sorted(s) && i < |s|
    ensures i < Below(s, b) <= |s| <==> BucketIndex(s[i]) < b
  {
    var n := |s| - 1;
    BucketMonotone(s[i], s[n]);
    BelowAtMost(s, b);
    if BucketIndex(s[n]) < b {
      AllBelow(s, b);
    } else if i < n {
      BelowIsAPrefix(s[..n], b, i);
      assert s[..n][i] == s[i];
      BelowAtMost(s[..n], b);
    } else {
      BelowAtMost(s[..n], b);
    }
  }

  lemma {:induction false} BelowAtMost(s: seq<U64>, b: int)
    ensures Below(s, b) <= |s|
  {
    if s != [] {
      BelowAtMost(s[..|s|-1], b);
    }
  }

  lemma {:induction false} AllBelow(s: seq<U64>, b: int)
    requires Sorted(s) && s != [] && BucketIndex(s[|s|-1]) < b
    ensures Below(s, b) == |s|
  {
    var n := |s| - 1;
    if n > 0 {
      BucketMonotone(s[n - 1], s[n]);
      AllBelow(s[..n], b);
    }
  }

  /** The bucket at which the cumulative count passes a rank is the bucket of the sample of that rank. */
  lemma RankInBucket(samples: seq<U64>, s: seq<U64>, rank: nat, b: int)
    requires IsSortOf(s, samples) && rank < |samples|
    ensures |s| == |samples|
    ensures Below(samples, b) <= rank < Below(samples, b + 1) <==> BucketIndex(s[rank]) == b
  {
    assert |multiset(s)| == |multiset(samples)|;
    BelowOfPermutation(s, samples, b);
    BelowOfPermutation(s, samples, b + 1);
    BelowIsAPrefix(s, b, rank);
    BelowIsAPrefix(s, b + 1, rank);
    BelowAtMost(s, b + 1);
    BelowAtMost(s, b);
  }

  /** The edge stands for a sample: within a factor of two below it, or 1 for a sample of 0 or 1. */
  predicate Brackets(edge: nat, sample: nat) {
    if edge == 1 then sample <= 1 else edge <= sample < 2 * edge
  }

  /** What the scan returns for bucket b. */
  function EdgeOf(b: nat): nat {
    if b == 0 then 1 else Pow2(b)
  }

  /** The edge of the bucket at which the cumulative count passes the rank. */
  ghost predicate EdgeAt(samples: seq<U64>, rank: nat, edge: nat) {
    exists b :: 0 <= b < BUCKETS && PassesAt(samples, rank, b) && edge == EdgeOf(b)
  }

  predicate PassesAt(samples: seq<U64>, rank: nat, b: nat) {
    Below(samples, b) <= rank < Below(samples, b + 1)
  }

  /** It brackets the sample of that rank in sorted order; and it is an upper bound of that sample
      exactly when the sample is at most 1 or is the edge itself. */
  lemma EdgeBrackets(samples: seq<U64>, s: seq<U64>, rank: nat, edge: nat)
    requires IsSortOf(s, samples) && rank < |samples| && EdgeAt(samples, rank, edge)
    ensures |s| == |samples| && Brackets(edge, s[rank])
    ensures s[rank] <= edge <==> s[rank] <= 1 || s[rank] == edge
  {
    var b :| 0 <= b < BUCKETS && PassesAt(samples, rank, b) && edge == EdgeOf(b);
    RankInBucket(samples, s, rank, b);
    BucketHolds(s[rank], b);
    Pow2Monotone(1, if b == 0 then 1 else b);
  }

  /** The only sample is 3, and every percentile below 100 is 2. */
  lemma EdgeBelowSample(edge: nat)
    ensures EdgeAt([3], 0, edge) <==> edge == 2
  {
    var samples: seq<U64> := [3];
    assert samples[..0] == [];
    BucketHolds(3, 1);
    assert forall b :: 0 <= b < BUCKETS ==> (PassesAt(samples, 0, b) <==> b == 1);
    assert PassesAt(samples, 0, 1) && EdgeOf(1) == 2;
  }

  // ---------- the mean

  function Sum(s: seq<U64>): nat {
    if s == [] then 0 else Sum(s[..|s|-1]) + s[|s|-1]
  }

  function Average(s: seq<U64>): nat
    requires s != []
  {
    Sum(s) / |s|
  }

  lemma {:induction false} SumBetween(s: seq<U64>, low: nat, high: nat)
    requires forall x :: x in s ==> low <= x <= high
    ensures low * |s| <= Sum(s) <= high * |s|
  {
    if s != [] {
      var n := |s| - 1;
      assert forall x :: x in s[..n] ==> x in s;
      SumBetween(s[..n], low, high);
      assert s[n] in s;
      assert |s| == n + 1;
      OnceMore(low, n);
      OnceMore(high, n);
    }
  }

  lemma OnceMore(a: nat, n: nat)
    ensures a * (n + 1) == a * n + a
  {
  }

  lemma DivideMonotone(a: nat, b: nat, n: nat)
    requires n > 0 && a <= b
    ensures a / n <= b / n
  {
    var c := a % n + (b - a);
    assert b == n * (a / n + c / n) + c % n by {
      assert a == n * (a / n) + a % n && c == n * (c / n) + c % n;
      assert n * (a / n + c / n) == n * (a / n) + n * (c / n);
    }
    RemainderUnique(b, n, a / n + c / n, c % n);
  }

  lemma AverageBetween(total: nat, n: nat, low: nat, high: nat)
    requires n > 0 && low * n <= total <= high * n
    ensures low <= total / n <= high
  {
    DivideMonotone(low * n, total, n);
    DivideMonotone(total, high * n, n);
    RemainderUnique(low * n, n, low, 0);
    RemainderUnique(high * n, n, high, 0);
  }

  /** What mean_ns divides is the wrapped sum, so it is the average exactly when the samples' true sum
      fits in 64 bits. */
  lemma MeanIsAverageIff(s: seq<U64>)
    requires 0 < |s| < TWO_64
    ensures Sum(s) % TWO_64 / |s| == Average(s) <==> Sum(s) < TWO_64
  {
    var total, n := Sum(s), |s|;
    if total >= TWO_64 {
      Wrapped(total);
      AverageBelow(total % TWO_64, total, n);
    }
  }

  lemma Wrapped(total: nat)
    requires total >= TWO_64
    ensures total % TWO_64 + TWO_64 <= total
  {
  }

  lemma AverageBelow(a: nat, b: nat, n: nat)
    requires n > 0 && a + n <= b
    ensures a / n < b / n
  {
    DivideMonotone(a, b - n, n);
    assert b == n * ((b - n) / n + 1) + (b - n) % n;
    RemainderUnique(b, n, (b - n) / n + 1, (b - n) % n);
  }

  /** And when it is, it lies between the least and the greatest sample. */
  lemma MeanBetween(s: seq<U64>, low: nat, high: nat)
    requires s != [] && Sum(s) < TWO_64
    requires forall x :: x in s ==> low <= x <= high
    ensures low <= Sum(s) % TWO_64 / |s| <= high
  {
    SumBetween(s, low, high);
    AverageBetween(Sum(s), |s|, low, high);
  }

  /** The mean that is reported, against the true average. */
  lemma Mean(s: seq<U64>, wrapped: nat, n: nat, low: nat, high: nat) returns (mean: U64)
    requires 0 < |s| < TWO_64 && forall x :: x in s ==> low <= x <= high
    requires wrapped == Sum(s) % TWO_64 && n == |s|
    ensures mean == wrapped / n
    ensures Sum(s) < TWO_64 ==> mean == Average(s) && low <= mean <= high
    ensures Sum(s) >= TWO_64 ==> mean < Average(s)
  {
    DivideAtMost(wrapped, n);
    mean := wrapped / n;
    if Sum(s) < TWO_64 {
      MeanBetween(s, low, high);
    } else {
      Wrapped(Sum(s));
      AverageBelow(wrapped, Sum(s), n);
    }
  }

  lemma DivideAtMost(a: nat, n: nat)
    requires n > 0
    ensures a / n <= a
  {
    assert a == n * (a / n) + a % n;
    AtLeastOnce(a / n, n);
  }

  /** Two samples of 2^63 have mean 0. */
  lemma MeanOfWrappedSum()
    ensures var s: seq<U64> := [0x8000_0000_0000_0000, 0x8000_0000_0000_0000];
            Sum(s) % TWO_64 / |s| == 0
  {
    var s: seq<U64> := [0x8000_0000_0000_0000, 0x8000_0000_0000_0000];
    assert s[..1] == [0x8000_0000_0000_0000];
    assert Sum(s[..1]) == 0x8000_0000_0000_0000;
  }
}

module LatencyHistograms {
  import opened Basics
  import opened BitTricks
  import opened LatencySamples

  lemma Reassociate(x: real, t: real)
    ensures x * t * 100.0 == x * 100.0 * t
  {
  }

  lemma ScaleAbove(x: real, t: real)
    requires t >= 0.0
    ensures x >= 1.0 ==> x * t >= t
    ensures x < 1.0 && t > 0.0 ==> x * t < t
  {
    assert x * t - t == (x - 1.0) * t;
  }

  lemma FloorAtLeast(x: real, n: int)
    ensures x.Floor >= n <==> x >= n as real
  {
  }

  class LatencyHistogram {
    const buckets: array<nat>
    var total: nat
    var sum: U64
    var min: U64
    var max: U64
    ghost var samples: seq<U64>      // everything recorded since the last reset

    constructor ()
      ensures Valid() && samples == [] && fresh(buckets)
    {
      buckets := new nat[BUCKETS](_ => 0);
      total, sum, min, max := 0, 0, TWO_64 - 1, 0;
      samples := [];
    }

    ghost predicate Valid()
      reads this, buckets
    {
      && buckets.Length == BUCKETS && total == |samples| < TWO_64 && sum == Sum(samples) % TWO_64
      && (forall b :: 0 <= b < BUCKETS ==> buckets[b] == InBucket(samples, b))
      && (forall x :: x in samples ==> min <= x <= max)
      && if samples == [] then min == TWO_64 - 1 && max == 0 else min in samples && max in samples
    }

    method RecordNs(ns: U64)
      requires Valid() && total + 1 < TWO_64
      modifies this, buckets
      ensures Valid() && samples == old(samples) + [ns]
    {
      hide InBucket, BucketIndex, Sum;
      BucketHolds(ns, 0);
      AddWrapped(Sum(samples), ns);
      forall b | 0 <= b < BUCKETS
        ensures InBucket(samples + [ns], b) == buckets[b] + if BucketIndex(ns) == b then 1 else 0
        ensures Sum(samples + [ns]) == Sum(samples) + ns
      {
        Recorded(samples, ns, b);
      }
      total := total + 1;
      sum := (sum + ns) % TWO_64;
      if ns < min {
        min := ns;
      }
      if ns > max {
        max := ns;
      }
      buckets[BucketIndex(ns)] := buckets[BucketIndex(ns)] + 1;
      samples := samples + [ns];
    }

    /** Record a cycle count at a given frequency; an unknown frequency records nothing. */
    method RecordCycles(cycles: U64, tscHz: U64)
      requires Valid() && total + 1 < TWO_64
      modifies this, buckets
      ensures Valid()
      ensures samples == if tscHz == 0 then old(samples)
                         else old(samples) + [cycles * 1_000_000_000 / tscHz % TWO_64]
    {
      if tscHz == 0 {
        return;
      }
      var ns := cycles * 1_000_000_000 / tscHz % TWO_64;
      RecordNs(ns);
    }

    /** The rank a percentile asks for. */
    function Rank(pct: real): nat
      requires pct >= 0.0
      reads this
    {
      (pct / 100.0 * total as real).Floor
    }

    /** That is the greatest rank at or below pct percent of the samples; it is past the last one exactly
        from 100 percent on. */
    lemma RankIsFloor(pct: real)
      requires pct >= 0.0
      ensures Rank(pct) as real * 100.0 <= pct * total as real < (Rank(pct) + 1) as real * 100.0
      ensures total > 0 ==> (Rank(pct) >= total <==> pct >= 100.0)
    {
      var share, t := pct / 100.0, total as real;
      assert share >= 1.0 <==> pct >= 100.0;
      Reassociate(share, t);
      ScaleAbove(share, t);
      FloorAtLeast(share * t, total);
    }

    /** The lower edge of the bucket of the sample of that rank, in sorted order. */
    method Percentile(pct: real) returns (r: nat)
      requires Valid() && pct >= 0.0
      ensures samples == [] ==> r == 0
      ensures Rank(pct) < |samples| ==>
                forall s: seq<U64> :: IsSortOf(s, samples) ==> |s| == |samples| && Brackets(r, s[Rank(pct)])
      ensures Rank(pct) < |samples| ==> EdgeAt(samples, Rank(pct), r)
      ensures samples != [] && Rank(pct) >= |samples| ==> r == max
    {
      if total == 0 {
        return 0;
      }
      var target := Rank(pct);
      var cumulative := 0;
      BelowEnds(samples);
      for b := 0 to BUCKETS
        invariant cumulative == Below(samples, b) <= target
      {
        BelowNext(samples, b);
        cumulative := cumulative + buckets[b];
        if cumulative > target {
          r := if b == 0 then 1 else Pow2(b);
          BelowAtMost(samples, b + 1);
          assert PassesAt(samples, target, b);
          forall s: seq<U64> | IsSortOf(s, samples)
            ensures |s| == |samples| && Brackets(r, s[target])
          {
            EdgeBrackets(samples, s, target, r);
          }
          return;
        }
      }
      return max;
    }

    method MinNs() returns (r: U64)
      requires Valid()
      ensures if samples == [] then r == 0 else r in samples && forall x :: x in samples ==> r <= x
    {
      r := if total > 0 then min else 0;
    }

    method MaxNs() returns (r: U64)
      requires Valid()
      ensures if samples == [] then r == 0 else r in samples && forall x :: x in samples ==> x <= r
    {
      r := max;
    }

    method MeanNs() returns (r: U64)
      requires Valid()
      ensures samples == [] ==> r == 0
      ensures samples != [] && Sum(samples) < TWO_64 ==> r == Average(samples) && min <= r <= max
      ensures samples != [] && Sum(samples) >= TWO_64 ==> r < Average(samples)
    {
      if total == 0 {
        return 0;
      }
      ghost var mean := Mean(samples, sum, total, min, max);
      hide *;
      r := sum / total;
    }

    /** The buckets always add up to the total. */
    lemma BucketsSumToTotal()
      requires Valid()
      ensures SumOf(buckets[..]) == total
    {
      BelowEnds(samples);
      SumIsBelow(buckets[..], samples);
    }

    method Reset()
      requires Valid()
      modifies this, buckets
      ensures Valid() && samples == []
    {
      for i := 0 to BUCKETS
        invariant forall k :: 0 <= k < i ==> buckets[k] == 0
      {
        buckets[i] := 0;
      }
      total, sum, min, max := 0, 0, TWO_64 - 1, 0;
      samples := [];
    }
  }

  function SumOf(s: seq<nat>): nat {
    if s == [] then 0 else SumOf(s[..|s|-1]) + s[|s|-1]
  }

  lemma {:induction false} SumIsBelow(counts: seq<nat>, samples: seq<U64>)
    requires forall b :: 0 <= b < |counts| ==> counts[b] == InBucket(samples, b)
    ensures SumOf(counts) == Below(samples, |counts|)
  {
    if counts == [] {
      BelowEnds(samples);
    } else {
      SumIsBelow(counts[..|counts|-1], samples);
      BelowNext(samples, |counts| - 1);
    }
  }
}

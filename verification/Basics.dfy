/** The machine types and the option type shared by every module of the model. */
module Basics {
  datatype Option<+T> = None | Some(value: T)

  const TWO_32: nat := 0x1_0000_0000
  const TWO_64: nat := 0x1_0000_0000_0000_0000

  type Byte = b: int | 0 <= b < 256
  type U16 = n: int | 0 <= n < 0x1_0000
  type U32 = n: int | 0 <= n < 0x1_0000_0000
  type U64 = n: int | 0 <= n < 0x1_0000_0000_0000_0000

  type Bytes = seq<Byte>
}

/** Sequences without repetition, and taking one element out. */
module Lists {

  ghost predicate Distinct<T>(s: seq<T>) {
    forall i, j :: 0 <= i < |s| && 0 <= j < |s| && i != j ==> Differ(s, i, j)
  }

  predicate Differ<T(==)>(s: seq<T>, i: nat, j: nat)
    requires i < |s| && j < |s|
  {
    s[i] != s[j]
  }

  /** The list without its element at position k. */
  function DropAt<T>(s: seq<T>, k: nat): (r: seq<T>)
    requires k < |s|
    ensures |r| == |s| - 1
    ensures forall i :: 0 <= i < k ==> r[i] == s[i]
    ensures forall i :: k <= i < |r| ==> r[i] == s[i + 1]
  {
    s[..k] + s[k+1..]
  }

  lemma DistinctAt<T>(s: seq<T>, i: int, j: int)
    requires Distinct(s)
    ensures 0 <= i < |s| && 0 <= j < |s| && i != j ==> s[i] != s[j]
  {
    if 0 <= i < |s| && 0 <= j < |s| && i != j {
      assert Differ(s, i, j);
    }
  }

  lemma AppendDistinct<T>(s: seq<T>, x: T)
    requires Distinct(s) && x !in s
    ensures Distinct(s + [x])
  {
    forall i, j | 0 <= i < |s + [x]| && 0 <= j < |s + [x]| && i != j
      ensures Differ(s + [x], i, j)
    {
      DistinctAt(s, i, j);
    }
  }

  lemma DropDistinct<T>(s: seq<T>, k: nat)
    requires Distinct(s) && k < |s|
    ensures Distinct(DropAt(s, k))
    ensures s[k] !in DropAt(s, k)
  {
    var r := DropAt(s, k);
    forall i, j | 0 <= i < |r| && 0 <= j < |r| && i != j
      ensures Differ(r, i, j)
    {
      DistinctAt(s, if i < k then i else i + 1, if j < k then j else j + 1);
    }
    forall i | 0 <= i < |r|
      ensures r[i] != s[k]
    {
      DistinctAt(s, if i < k then i else i + 1, k);
    }
  }
}

/** Remainders of counts that wrap around. */
module Remainders {

  lemma RemainderUnique(x: int, m: nat, q: int, r: nat)
    requires m > 0 && x == m * q + r && r < m
    ensures x % m == r && x / m == q
  {
    var d := q - x / m;
    assert x == m * (x / m) + x % m;
    assert m * d == x % m - r by {
      assert m * d == m * q - m * (x / m);
    }
    if d >= 1 {
      AtLeastOnce(m, d);
    } else if d <= -1 {
      AtLeastOnce(m, -d);
    }
  }

  lemma {:induction false} AtLeastOnce(m: nat, d: int)
    requires d >= 1
    ensures m * d >= m
  {
    if d > 1 {
      AtLeastOnce(m, d - 1);
      assert m * d == m * (d - 1) + m;
    }
  }

  /** Two counts less than n apart have the same remainder only if they are equal. */
  lemma SameRemainder(a: nat, b: nat, n: nat)
    requires n > 0 && a <= b < a + n && a % n == b % n
    ensures a == b
  {
    assert a == n * (a / n) + a % n && b == n * (b / n) + b % n;
    var d := b / n - a / n;
    assert b - a == n * d by {
      assert n * (b / n) - n * (a / n) == n * d;
    }
    if d >= 1 {
      AtLeastOnce(n, d);
    } else if d <= -1 {
      AtLeastOnce(n, -d);
    }
  }

  /** Stepping a wrapped count. */
  lemma NextRemainder(a: nat, n: nat)
    requires n > 0
    ensures (a % n + 1) % n == (a + 1) % n == if a % n + 1 == n then 0 else a % n + 1
  {
    var q, m := a / n, a % n;
    assert a == n * q + m;
    if m + 1 < n {
      RemainderUnique(a + 1, n, q, m + 1);
      RemainderUnique(m + 1, n, 0, m + 1);
    } else {
      assert a + 1 == n * (q + 1) + 0;
      RemainderUnique(a + 1, n, q + 1, 0);
      RemainderUnique(m + 1, n, 1, 0);
    }
  }

  lemma WrapOnce(a: nat, n: nat)
    requires n > 0
    ensures (a + n) % n == a % n
  {
    assert a + n == n * (a / n + 1) + a % n;
    RemainderUnique(a + n, n, a / n + 1, a % n);
  }
}

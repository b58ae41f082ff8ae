/** The bit tricks behind the slot table: rounding a capacity up to a power of two, and masking. */
module BitTricks {
  import opened Basics
  import opened Remainders
  import SlotArithmetic

  function Pow2(k: nat): (r: nat)
    ensures r >= 1
  {
    if k == 0 then 1 else 2 * Pow2(k - 1)
  }

  /** `a | b` on the binary digits. */
  function Or(a: nat, b: nat): nat {
    if a == 0 then b
    else 2 * Or(a / 2, b / 2) + if a % 2 == 1 || b % 2 == 1 then 1 else 0
  }

  /** `a & b` on the binary digits. */
  function And(a: nat, b: nat): nat {
    if a == 0 then 0
    else 2 * And(a / 2, b / 2) + if a % 2 == 1 && b % 2 == 1 then 1 else 0
  }

  /** `a >> k`. */
  function Shr(a: nat, k: nat): nat {
    if k == 0 then a else Shr(a / 2, k - 1)
  }

  /** The rounding of a requested capacity: smear the top digit of n - 1 downwards, add one. */
  function NextPow2(n: U64): nat {
    if n == 0 then 1
    else
      var a := n - 1;
      var b := Or(a, Shr(a, 1));
      var c := Or(b, Shr(b, 2));
      var d := Or(c, Shr(c, 4));
      var e := Or(d, Shr(d, 8));
      var f := Or(e, Shr(e, 16));
      var g := Or(f, Shr(f, 32));
      (g + 1) % TWO_64
  }

  // ---------- what smearing does

  function BitLength(n: nat): nat {
    if n == 0 then 0 else 1 + BitLength(n / 2)
  }

  /** The number x has `len` binary digits and the top w of them are ones. */
  ghost predicate TopOnes(x: nat, len: nat, w: nat)
    requires w <= len
  {
    if len == w then x + 1 == Pow2(len) else TopOnes(x / 2, len - 1, w)
  }

  lemma {:induction false} TopOnesDigit(x: nat, len: nat, w: nat, i: nat)
    requires w <= len && len - w <= i < len && TopOnes(x, len, w)
    ensures Shr(x, i) % 2 == 1
    decreases len
  {
    if len > w {
      TopOnesDigit(x / 2, len - 1, w, i - 1);
    } else if i > 0 {
      assert x / 2 + 1 == Pow2(len - 1);
      TopOnesDigit(x / 2, len - 1, w - 1, i - 1);
    }
  }

  lemma {:induction false} ShrHalf(x: nat, k: nat)
    ensures Shr(x, k) / 2 == Shr(x / 2, k)
  {
    if k > 0 {
      ShrHalf(x / 2, k - 1);
    }
  }

  lemma {:induction false} ShrAllOnes(x: nat, k: nat)
    requires x + 1 == Pow2(k)
    ensures Shr(x, k) == 0
  {
    if k > 0 {
      ShrAllOnes(x / 2, k - 1);
    }
  }

  lemma {:induction false} OrZero(x: nat)
    ensures Or(x, 0) == x
  {
    if x > 0 {
      OrZero(x / 2);
    }
  }

  /** One smearing step doubles the run of leading ones, until it reaches the last digit. */
  lemma {:induction false} SmearStep(x: nat, len: nat, w: nat)
    requires 1 <= w <= len && TopOnes(x, len, w)
    ensures TopOnes(Or(x, Shr(x, w)), len, if 2 * w <= len then 2 * w else len)
    decreases len
  {
    if len == w {
      ShrAllOnes(x, w);
      OrZero(x);
    } else {
      SmearStep(x / 2, len - 1, w);
      ShrHalf(x, w);
      assert Pow2(len) == 2 * Pow2(len - 1);
      if len <= 2 * w {
        TopOnesDigit(x, len, w, w);
      }
      if x == 0 {
        TopOnesDigit(x, len, w, len - 1);
        ShrZero(len - 1);
      }
    }
  }

  lemma {:induction false} ShrZero(k: nat)
    ensures Shr(0, k) == 0
  {
    if k > 0 {
      ShrZero(k - 1);
    }
  }

  lemma {:induction false} BitLengthBounds(n: nat)
    requires n > 0
    ensures Pow2(BitLength(n) - 1) <= n < Pow2(BitLength(n))
    ensures TopOnes(n, BitLength(n), 1)
  {
    if n > 1 {
      BitLengthBounds(n / 2);
    }
  }

  lemma {:induction false} Pow2Monotone(a: nat, b: nat)
    requires a <= b
    ensures Pow2(a) <= Pow2(b)
    ensures a < b ==> 2 * Pow2(a) <= Pow2(b)
  {
    if a < b {
      Pow2Monotone(a, b - 1);
    }
  }

  lemma Pow2Of64()
    ensures Pow2(63) == 0x8000_0000_0000_0000 && Pow2(64) == TWO_64
  {
    assert Pow2(4) == 16 && Pow2(64) == 2 * Pow2(63);
    hide Pow2;
    Pow2Sum(4, 4);
    Pow2Sum(8, 8);
    Pow2Sum(16, 16);
    Pow2Sum(32, 32);
  }

  lemma {:induction false} Pow2Sum(a: nat, b: nat)
    ensures Pow2(a + b) == Pow2(a) * Pow2(b)
  {
    if a > 0 {
      Pow2Sum(a - 1, b);
      assert Pow2(a) == 2 * Pow2(a - 1) && Pow2(a + b) == 2 * Pow2(a + b - 1);
      hide Pow2;
      assert 2 * Pow2(a - 1) * Pow2(b) == 2 * (Pow2(a - 1) * Pow2(b));
    }
  }

  /** The six smearing steps turn every digit below the top one into a one. */
  lemma SmearAll(a: nat, len: nat)
    requires a > 0 && len == BitLength(a) <= 64
    ensures
      var b := Or(a, Shr(a, 1));
      var c := Or(b, Shr(b, 2));
      var d := Or(c, Shr(c, 4));
      var e := Or(d, Shr(d, 8));
      var f := Or(e, Shr(e, 16));
      Or(f, Shr(f, 32)) + 1 == Pow2(len)
  {
    BitLengthBounds(a);
    var b := SmearTo(a, len, 1);
    var c := SmearTo(b, len, 2);
    var d := SmearTo(c, len, 4);
    var e := SmearTo(d, len, 8);
    var f := SmearTo(e, len, 16);
    var g := SmearTo(f, len, 32);
  }

  function Min(a: nat, b: nat): nat {
    if a <= b then a else b
  }

  /** A smearing step by w, also when the run of ones is already complete. */
  lemma SmearTo(x: nat, len: nat, w: nat) returns (y: nat)
    requires 1 <= w && 1 <= len && TopOnes(x, len, Min(w, len))
    ensures y == Or(x, Shr(x, w)) && TopOnes(y, len, Min(2 * w, len))
  {
    y := Or(x, Shr(x, w));
    if w <= len {
      SmearStep(x, len, w);
    } else {
      ShrAllOnes(x, len);
      ShrBeyond(x, len, w);
      OrZero(x);
    }
  }

  lemma {:induction false} ShrBeyond(x: nat, k: nat, w: nat)
    requires k <= w && Shr(x, k) == 0
    ensures Shr(x, w) == 0
    decreases w
  {
    if k > 0 {
      ShrBeyond(x / 2, k - 1, w - 1);
    } else {
      ShrZero(w);
    }
  }

  /** `next_pow2` returns the least power of two that is at least n, for every n up to 2^63. */
  lemma NextPow2IsLeast(n: U64)
    requires 1 <= n <= 0x8000_0000_0000_0000
    ensures exists k: nat :: NextPow2(n) == Pow2(k)
    ensures NextPow2(n) >= n
    ensures forall k: nat :: Pow2(k) >= n ==> NextPow2(n) <= Pow2(k)
  {
    hide NextPow2, Pow2;
    var len := if n == 1 then 0 else BitLength(n - 1);
    NextPow2Value(n);
    assert n <= Pow2(len) && (n > 1 ==> Pow2(len - 1) < n) by {
      if n > 1 {
        BitLengthBounds(n - 1);
      }
    }
    forall k: nat | Pow2(k) >= n
      ensures Pow2(len) <= Pow2(k)
    {
      LeastExponent(n, len, k);
    }
  }

  lemma LeastExponent(n: nat, len: nat, k: nat)
    requires n > 1 && len > 0 ==> Pow2(len - 1) < n
    requires n <= 1 ==> len == 0
    requires Pow2(k) >= n
    ensures Pow2(len) <= Pow2(k)
  {
    if k < len {
      Pow2Monotone(k, len - 1);
    } else {
      Pow2Monotone(len, k);
    }
  }

  lemma NextPow2Value(n: U64)
    requires 1 <= n <= 0x8000_0000_0000_0000
    ensures NextPow2(n) == Pow2(if n == 1 then 0 else BitLength(n - 1))
  {
    if n == 1 {
      ShrZero(1); ShrZero(2); ShrZero(4); ShrZero(8); ShrZero(16); ShrZero(32);
    } else {
      hide Pow2, Or, Shr, BitLength;
      ShortEnough(n - 1);
      SmearAll(n - 1, BitLength(n - 1));
    }
  }

  lemma ShortEnough(a: nat)
    requires 0 < a < 0x8000_0000_0000_0000
    ensures BitLength(a) <= 63 && Pow2(BitLength(a)) < TWO_64
  {
    hide Pow2, BitLength;
    BitLengthBounds(a);
    Pow2Of64();
    if BitLength(a) > 63 {
      Pow2Monotone(63, BitLength(a) - 1);
    } else {
      Pow2Monotone(BitLength(a), 63);
    }
  }

  /** Beyond 2^63 the addition wraps and the rounded capacity is zero. */
  lemma NextPow2Overflows(n: U64)
    requires n > 0x8000_0000_0000_0000
    ensures NextPow2(n) == 0
  {
    Pow2Of64();
    BitLengthBounds(n - 1);
    var len := BitLength(n - 1);
    if len < 64 {
      Pow2Monotone(len, 63);
      assert false;
    } else if len > 64 {
      Pow2Monotone(64, len - 1);
      assert false;
    }
    SmearAll(n - 1, 64);
  }

  // ---------- masking

  /** `x & (2^k - 1)` is the remainder modulo 2^k. */
  lemma {:induction false} MaskIsRemainder(x: nat, k: nat)
    ensures And(x, Pow2(k) - 1) == x % Pow2(k)
  {
    if x == 0 {
      RemainderUnique(0, Pow2(k), 0, 0);
    } else if k == 0 {
      AndZero(x);
      RemainderUnique(x, 1, x, 0);
    } else {
      MaskIsRemainder(x / 2, k - 1);
      assert Pow2(k) == 2 * Pow2(k - 1);
      hide And, Pow2;
      RemainderDigit(x, Pow2(k - 1));
      AndDigit(x, Pow2(k - 1));
    }
  }

  lemma AndDigit(x: nat, h: nat)
    requires x > 0 && h >= 1
    ensures And(x, 2 * h - 1) == 2 * And(x / 2, h - 1) + x % 2
  {
    assert (2 * h - 1) / 2 == h - 1 && (2 * h - 1) % 2 == 1;
  }

  lemma {:induction false} AndAtMost(x: nat, m: nat)
    ensures And(x, m) <= m
  {
    if x > 0 {
      AndAtMost(x / 2, m / 2);
    }
  }

  lemma {:induction false} AndZero(x: nat)
    ensures And(x, 0) == 0
  {
    if x > 0 {
      AndZero(x / 2);
    }
  }

  lemma RemainderDigit(x: nat, p: nat)
    requires p >= 1
    ensures x % (2 * p) == 2 * ((x / 2) % p) + x % 2
  {
    var q, r := (x / 2) / p, (x / 2) % p;
    assert x / 2 == p * q + r;
    assert x == (2 * p) * q + (2 * r + x % 2) by {
      assert (2 * p) * q == 2 * (p * q);
    }
    RemainderUnique(x, 2 * p, q, 2 * r + x % 2);
  }

  /** With a power-of-two capacity, the masked `(i + 1)` is the successor on a cycle of slots. */
  lemma MaskedNext(k: nat, i: nat)
    requires i < Pow2(k)
    ensures And(i + 1, Pow2(k) - 1) == SlotArithmetic.Next(Pow2(k), i)
  {
    MaskIsRemainder(i + 1, k);
    if i + 1 == Pow2(k) {
      RemainderUnique(i + 1, Pow2(k), 1, 0);
    } else {
      RemainderUnique(i + 1, Pow2(k), 0, i + 1);
    }
  }

  /** With a power-of-two capacity, the masked 64-bit difference of two slot numbers is the
      forward distance between them. */
  lemma MaskedDistance(k: nat, a: nat, b: nat)
    requires k <= 63 && a < Pow2(k) && b < Pow2(k)
    ensures And((b - a) % TWO_64, Pow2(k) - 1) == SlotArithmetic.Dist(Pow2(k), a, b)
  {
    var c := Pow2(k);
    var w := (b - a) % TWO_64;
    assert c < TWO_64 by {
      Pow2Of64();
      Pow2Monotone(k, 63);
    }
    assert w == if a <= b then b - a else b - a + TWO_64;
    MaskIsRemainder(w, k);
    if a <= b {
      RemainderUnique(w, c, 0, b - a);
    } else {
      var q := Pow2(64 - k);
      Pow2Sum(64 - k, k);
      Pow2Of64();
      WrapIsMultiple(c, q, b - a);
      RemainderUnique(w, c, q - 1, b - a + c);
    }
  }

  lemma WrapIsMultiple(c: nat, q: nat, d: int)
    requires q * c == TWO_64
    ensures d + TWO_64 == c * (q - 1) + (d + c)
  {
    assert c * (q - 1) == c * q - c;
    assert c * q == q * c;
  }
}

/** Slot positions on a cycle of cap slots. */
module SlotArithmetic {

  /** The successor of slot i. */
  function Next(cap: nat, i: nat): (r: nat)
    requires i < cap
    ensures r < cap
  {
    if i + 1 == cap then 0 else i + 1
  }

  /** The number of forward steps from slot a to slot b. */
  function Dist(cap: nat, a: nat, b: nat): (r: nat)
    requires a < cap && b < cap
    ensures r < cap && (r == 0 <==> a == b)
  {
    if a <= b then b - a else b + cap - a
  }

  /** Slot x lies on the forward walk from slot h to slot c, both ends included. */
  predicate OnPath(cap: nat, h: nat, x: nat, c: nat)
    requires h < cap && x < cap && c < cap
  {
    Dist(cap, h, x) <= Dist(cap, h, c)
  }
}

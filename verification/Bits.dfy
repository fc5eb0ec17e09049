/** Unsigned C bit operators on natural numbers, and what they mean for powers of two. */
module Bits {

  type Byte = x: nat | x < 0x100

  function Min(x: nat, y: nat): nat { if x < y then x else y }

  function Pow2(k: nat): (p: nat)
    ensures p > 0
  {
    if k == 0 then 1 else 2 * Pow2(k - 1)
  }

  lemma Pow2Doubles(k: nat)
    ensures Pow2(k + 1) == 2 * Pow2(k)
  {
  }

  lemma Pow2Values()
    ensures Pow2(8) == 0x100 && Pow2(16) == 0x1_0000 && Pow2(24) == 0x100_0000 && Pow2(32) == 0x1_0000_0000
  {
    Pow2Adds(4, 4);
    Pow2Adds(8, 8);
    Pow2Adds(16, 8);
    Pow2Adds(16, 16);
  }

  lemma {:induction false} Pow2Adds(j: nat, k: nat)
    ensures Pow2(j + k) == Pow2(j) * Pow2(k)
  {
    if j > 0 {
      Pow2Adds(j - 1, k);
    }
  }

  /** `x & y` on unsigned words of any width. */
  function And(x: nat, y: nat): nat {
    if x == 0 || y == 0 then 0
    else 2 * And(x / 2, y / 2) + (if x % 2 == 1 && y % 2 == 1 then 1 else 0)
  }

  /** `x >> k` on unsigned words. */
  function ShiftRight(x: nat, k: nat): nat {
    if k == 0 then x else ShiftRight(x / 2, k - 1)
  }

  function CeilDiv(n: nat, d: nat): nat
    requires d > 0
  {
    if n % d == 0 then n / d else n / d + 1
  }

  lemma HalveModulus(x: nat, p: nat)
    requires p > 0
    ensures x % (2 * p) == 2 * (x / 2 % p) + x % 2
    ensures x / (2 * p) == x / 2 / p
  {
    var h := x / 2;
    var q, r := h / p, h % p;
    assert h == p * q + r;
    assert x == 2 * h + x % 2;
    assert x == (2 * p) * q + (2 * r + x % 2) by {
      assert 2 * (p * q) == (2 * p) * q;
    }
    QuotientIsUnique(x, 2 * p, q, 2 * r + x % 2);
  }

  lemma ProductAtLeast(d: int, m: int)
    requires d >= 0
    ensures m >= 1 ==> d * m >= d
    ensures m <= -1 ==> d * m <= -d
  {
    if m >= 1 {
      assert d * m == d * (m - 1) + d;
    } else if m <= -1 {
      assert d * m == d * (m + 1) - d;
    }
  }

  lemma QuotientIsUnique(x: nat, d: nat, q: int, r: nat)
    requires 0 <= r < d && x == d * q + r
    ensures x / d == q && x % d == r
  {
    var q' := x / d;
    var m := q - q';
    assert d * m == d * q - d * q';
    ProductAtLeast(d, m);
  }

  /** Masking with `2^k - 1` is the remainder modulo `2^k`: why HASH_TO_BKT finds a bucket. */
  lemma {:induction false} MaskIsRemainder(x: nat, k: nat)
    ensures And(x, Pow2(k) - 1) == x % Pow2(k)
  {
    if k == 0 {
      assert And(x, 0) == 0;
    } else if x == 0 {
      assert And(0, Pow2(k) - 1) == 0;
    } else {
      MaskIsRemainder(x / 2, k - 1);
      HalveModulus(x, Pow2(k - 1));
      AndUnfolds(x, Pow2(k) - 1, Pow2(k - 1) - 1);
    }
  }

  lemma AndUnfolds(x: nat, y: nat, half: nat)
    requires x > 0 && y == 2 * half + 1
    ensures And(x, y) == 2 * And(x / 2, half) + x % 2
  {
    assert y / 2 == half && y % 2 == 1;
  }

  lemma {:induction false} ShiftIsDivision(x: nat, k: nat)
    ensures ShiftRight(x, k) == x / Pow2(k)
  {
    if k > 0 {
      ShiftIsDivision(x / 2, k - 1);
      HalveModulus(x, Pow2(k - 1));
    }
  }

  /** The shift-and-mask expression of HASH_EXPAND_BUCKETS is the rounded-up quotient. */
  lemma ShiftAndMaskIsCeil(n: nat, k: nat)
    ensures ShiftRight(n, k) + (if And(n, Pow2(k) - 1) != 0 then 1 else 0) == CeilDiv(n, Pow2(k))
  {
    ShiftIsDivision(n, k);
    MaskIsRemainder(n, k);
  }
}

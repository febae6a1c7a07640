// The unsigned bit arithmetic that uthash.h does on bucket counts, written out on natural
// numbers: AND and right shift are defined bit by bit, and lemmas say what they compute.
module Bits {

  const TWO_TO_THE_32: nat := 0x1_0000_0000

  function Pow2(k: nat): (p: nat)
    ensures p >= 1
  {
    if k == 0 then 1 else 2 * Pow2(k - 1)
  }

  // a & b
  function And(a: nat, b: nat): (r: nat)
    ensures r <= b
  {
    if a == 0 || b == 0 then 0
    else 2 * And(a / 2, b / 2) + (if a % 2 == 1 && b % 2 == 1 then 1 else 0)
  }

  // n >> k
  function Shr(n: nat, k: nat): nat {
    if k == 0 then n else Shr(n / 2, k - 1)
  }

  // n / d, rounded up.
  function CeilDiv(n: nat, d: nat): (c: nat)
    requires d > 0
    ensures n > 0 ==> c > 0
  {
    if n == 0 then 0 else 1 + CeilDiv(if n < d then 0 else n - d, d)
  }

  // Division and remainder by 2 * p, taken one bit at a time.
  lemma DivModTwice(h: nat, p: nat)
    requires p >= 1
    ensures h / (2 * p) == (h / 2) / p
    ensures h % (2 * p) == 2 * ((h / 2) % p) + h % 2
  {
    var q, r := (h / 2) / p, (h / 2) % p;
    assert h == 2 * (q * p + r) + h % 2;
    assert h == q * (2 * p) + (2 * r + h % 2);
    DivModUnique(h, 2 * p, q, 2 * r + h % 2);
  }

  lemma MulStep(a: nat, b: nat, d: nat)
    requires a < b
    ensures a * d + d <= b * d
  {
    var k := b - a - 1;
    assert b * d == (a + 1 + k) * d == a * d + d + k * d;
  }

  lemma DivModUnique(n: nat, d: nat, q: nat, r: nat)
    requires r < d && n == q * d + r
    ensures n / d == q && n % d == r
  {
    var q', r' := n / d, n % d;
    assert n == q' * d + r' && r' < d;
    if q < q' {
      MulStep(q, q', d);
    } else if q > q' {
      MulStep(q', q, d);
    }
  }

  lemma AndStep(h: nat, p: nat)
    requires p >= 1
    ensures And(h, 2 * p - 1) == 2 * And(h / 2, p - 1) + h % 2
  {
    assert (2 * p - 1) / 2 == p - 1 && (2 * p - 1) % 2 == 1;
    if h == 0 {
      assert And(0, p - 1) == 0;
    }
  }

  // HASH_TO_BKT: masking with a power of two less one is the remainder.
  lemma {:induction false} MaskIsMod(h: nat, k: nat)
    ensures And(h, Pow2(k) - 1) == h % Pow2(k)
  {
    if k > 0 {
      var p := Pow2(k - 1);
      MaskIsMod(h / 2, k - 1);
      assert Pow2(k) == 2 * p;
      hide Pow2, And;
      DivModTwice(h, p);
      AndStep(h, p);
    }
  }

  lemma {:induction false} ShrIsDiv(n: nat, k: nat)
    ensures Shr(n, k) == n / Pow2(k)
  {
    if k > 0 {
      ShrIsDiv(n / 2, k - 1);
      DivModTwice(n, Pow2(k - 1));
    }
  }

  lemma DivModLess(n: nat, p: nat)
    requires 1 <= p <= n
    ensures n / p == (n - p) / p + 1 && n % p == (n - p) % p
  {
    var q, r := (n - p) / p, (n - p) % p;
    assert (q + 1) * p == q * p + p;
    DivModUnique(n, p, q + 1, r);
  }

  lemma {:induction false} CeilDivIs(n: nat, p: nat)
    requires p >= 1
    ensures CeilDiv(n, p) == n / p + (if n % p != 0 then 1 else 0)
  {
    if n >= p {
      CeilDivIs(n - p, p);
      DivModLess(n, p);
    } else {
      DivModUnique(n, p, 0, n);
    }
  }

  // The shift-and-mask form of ceil(n / 2^k) used by HASH_EXPAND_BUCKETS.
  lemma ShiftAndMaskIsCeil(n: nat, k: nat)
    ensures Shr(n, k) + (if And(n, Pow2(k) - 1) != 0 then 1 else 0) == CeilDiv(n, Pow2(k))
  {
    MaskIsMod(n, k);
    ShrIsDiv(n, k);
    CeilDivIs(n, Pow2(k));
  }

  // Doubling the divisor splits every residue class in two.
  lemma DoublingSplits(h: nat, b: nat)
    requires b >= 1
    ensures h % (2 * b) == h % b || h % (2 * b) == h % b + b
    ensures h % (2 * b) % b == h % b
  {
    var q, r := DivMod(h, b);
    if q % 2 == 0 {
      EvenQuotient(h, b, q, q / 2, r);
    } else {
      OddQuotient(h, b, q, q / 2, r);
    }
  }

  lemma DivMod(h: nat, b: nat) returns (q: nat, r: nat)
    requires b >= 1
    ensures h == q * b + r && r < b && r == h % b
  {
    q, r := h / b, h % b;
  }

  lemma EvenQuotient(h: nat, b: nat, q: nat, t: nat, r: nat)
    requires r < b && h == q * b + r && q == 2 * t
    ensures h % (2 * b) == r && r % b == r
  {
    assert q * b == t * (2 * b);
    DivModUnique(h, 2 * b, t, r);
    DivModUnique(r, b, 0, r);
  }

  lemma OddQuotient(h: nat, b: nat, q: nat, t: nat, r: nat)
    requires r < b && h == q * b + r && q == 2 * t + 1
    ensures h % (2 * b) == r + b && (r + b) % b == r
  {
    assert q * b == t * (2 * b) + b;
    DivModUnique(h, 2 * b, t, r + b);
    DivModUnique(r + b, b, 1, r);
  }
}

// HASH_JEN of lecture/test3/src/uthash.h: its mixing step loses no information.
module JenHash {

  import opened Bits

  // A C unsigned int of 32 bits, whose operators wrap around.
  type word = x: nat | x < TWO_TO_THE_32

  datatype Mix = Mix(a: word, b: word, c: word)

  function Add(x: word, y: word): word {
    if x + y < TWO_TO_THE_32 then x + y else x + y - TWO_TO_THE_32
  }

  function Sub(x: word, y: word): word {
    if x >= y then x - y else x - y + TWO_TO_THE_32
  }

  function XorBits(x: nat, y: nat): nat {
    if x == 0 && y == 0 then 0
    else 2 * XorBits(x / 2, y / 2) + (if x % 2 != y % 2 then 1 else 0)
  }

  lemma {:induction false} XorBound(x: nat, y: nat, k: nat)
    requires x < Pow2(k) && y < Pow2(k)
    ensures XorBits(x, y) < Pow2(k)
  {
    if k > 0 {
      XorBound(x / 2, y / 2, k - 1);
    }
  }

  lemma Pow2Of32()
    ensures Pow2(32) == TWO_TO_THE_32
  {
    assert Pow2(8) == 16 * Pow2(4) == 256;
    assert Pow2(16) == 256 * Pow2(8);
    assert Pow2(24) == 256 * Pow2(16);
    assert Pow2(32) == 256 * Pow2(24);
  }

  function Xor(x: word, y: word): word {
    Pow2Of32();
    XorBound(x, y, 32);
    XorBits(x, y)
  }

  function ShiftLeft(x: word, n: nat): word {
    x * Pow2(n) % TWO_TO_THE_32
  }

  function ShiftRight(x: word, n: nat): word {
    ShrNoLarger(x, n);
    Shr(x, n)
  }

  lemma {:induction false} ShrNoLarger(x: nat, n: nat)
    ensures Shr(x, n) <= x
  {
    if n > 0 {
      ShrNoLarger(x / 2, n - 1);
    }
  }

  lemma {:induction false} XorBitsTwice(x: nat, f: nat)
    ensures XorBits(XorBits(x, f), f) == x
  {
    if x != 0 || f != 0 {
      XorBitsTwice(x / 2, f / 2);
      var r := XorBits(x, f);
      assert r / 2 == XorBits(x / 2, f / 2) && r % 2 == (if x % 2 != f % 2 then 1 else 0);
    }
  }

  // The exclusive or adds the two bits of every place without carrying.
  lemma {:induction false} XorIsBitwise(x: nat, y: nat, i: nat)
    ensures XorBits(x, y) / Pow2(i) % 2 == (x / Pow2(i) % 2 + y / Pow2(i) % 2) % 2
  {
    var r := XorBits(x, y);
    assert r / 2 == XorBits(x / 2, y / 2) && r % 2 == (x % 2 + y % 2) % 2;
    if i > 0 {
      var p := Pow2(i - 1);
      XorIsBitwise(x / 2, y / 2, i - 1);
      assert Pow2(i) == 2 * p;
      hide XorBits, Pow2;
      DivModTwice(x, p);
      DivModTwice(y, p);
      DivModTwice(r, p);
    }
  }

  // One of the nine lines: x -= y; x -= z; x ^= f, where f is a shifted z or y.
  function Line(x: word, y: word, z: word, f: word): word {
    Xor(Sub(Sub(x, y), z), f)
  }

  function Unline(r: word, y: word, z: word, f: word): word {
    Add(Add(Xor(r, f), z), y)
  }

  lemma LineInverse(x: word, y: word, z: word, f: word)
    ensures Unline(Line(x, y, z, f), y, z, f) == x
    ensures Line(Unline(x, y, z, f), y, z, f) == x
  {
    hide XorBits;
    XorBitsTwice(Sub(Sub(x, y), z), f);
    XorBitsTwice(x, f);
  }

  // Three lines with the given shift distances.
  function Round(m: Mix, i: nat, j: nat, k: nat): Mix
  {
    var a := Line(m.a, m.b, m.c, ShiftRight(m.c, i));
    var b := Line(m.b, m.c, a, ShiftLeft(a, j));
    var c := Line(m.c, a, b, ShiftRight(b, k));
    Mix(a, b, c)
  }

  function Unround(m: Mix, i: nat, j: nat, k: nat): Mix
  {
    var c := Unline(m.c, m.a, m.b, ShiftRight(m.b, k));
    var b := Unline(m.b, c, m.a, ShiftLeft(m.a, j));
    var a := Unline(m.a, b, c, ShiftRight(c, i));
    Mix(a, b, c)
  }

  lemma RoundInverse(m: Mix, i: nat, j: nat, k: nat)
    ensures Unround(Round(m, i, j, k), i, j, k) == m
    ensures Round(Unround(m, i, j, k), i, j, k) == m
  {
    hide Line, Unline, ShiftLeft, ShiftRight;
    var r := Round(m, i, j, k);
    LineInverse(m.a, m.b, m.c, ShiftRight(m.c, i));
    LineInverse(m.b, m.c, r.a, ShiftLeft(r.a, j));
    LineInverse(m.c, r.a, r.b, ShiftRight(r.b, k));
    var u := Unround(m, i, j, k);
    LineInverse(m.c, m.a, m.b, ShiftRight(m.b, k));
    LineInverse(m.b, u.c, m.a, ShiftLeft(m.a, j));
    LineInverse(m.a, u.b, u.c, ShiftRight(u.c, i));
  }

  // HASH_JEN_MIX
  function JenMix(m: Mix): Mix {
    Round(Round(Round(m, 13, 8, 13), 12, 16, 5), 3, 10, 15)
  }

  function JenUnmix(m: Mix): Mix {
    Unround(Unround(Unround(m, 3, 10, 15), 12, 16, 5), 13, 8, 13)
  }

  // HASH_JEN_MIX is a bijection on triples of 32-bit words, with JenUnmix its inverse.
  lemma JenMixBijective(m: Mix)
    ensures JenUnmix(JenMix(m)) == m && JenMix(JenUnmix(m)) == m
  {
    hide Round, Unround;
    var m1 := Round(m, 13, 8, 13);
    var m2 := Round(m1, 12, 16, 5);
    RoundInverse(m, 13, 8, 13);
    RoundInverse(m1, 12, 16, 5);
    RoundInverse(m2, 3, 10, 15);
    var u1 := Unround(m, 3, 10, 15);
    var u2 := Unround(u1, 12, 16, 5);
    RoundInverse(m, 3, 10, 15);
    RoundInverse(u1, 12, 16, 5);
    RoundInverse(u2, 13, 8, 13);
  }
}

// HASH_JEN_MIX on 32-bit words, line by line as lecture/test3/src/uthash.h has it, and its
// agreement with the same step on numbers. What one operation does to a word is stated through
// small functions, which the inductions over places and counts leave closed.
module JenWords {
  import opened Bits
  import opened JenHash

  predicate Odd(x: bv32) {
    x & 1 == 1
  }

  // The lowest binary digit of x.
  function Bit(x: bv32): (b: nat)
    ensures b <= 1
  {
    if Odd(x) then 1 else 0
  }

  function Half(x: bv32): bv32 {
    x >> 1
  }

  // The number whose binary digits are the low k bits of x.
  function Low(x: bv32, k: nat): nat
    decreases k
  {
    if k == 0 then 0 else 2 * Low(Half(x), k - 1) + Bit(x)
  }

  lemma LowStep(x: bv32, k: nat)
    requires k > 0
    ensures Low(x, k) == 2 * Low(Half(x), k - 1) + Bit(x) && Pow2(k) == 2 * Pow2(k - 1)
  {
  }

  lemma {:induction false} LowBound(x: bv32, k: nat)
    ensures Low(x, k) < Pow2(k)
    decreases k
  {
    if k > 0 {
      LowBound(Half(x), k - 1);
    }
  }

  // The unsigned value of a word.
  function Value(x: bv32): word {
    LowBound(x, 32);
    Pow2Of32();
    Low(x, 32)
  }

  // ---------- counting up ----------

  const ALL_ONES: bv32 := 0xffff_ffff

  function Next(x: bv32): bv32 {
    x + 1
  }

  lemma NextOfEven(x: bv32)
    requires !Odd(x)
    ensures Half(Next(x)) == Half(x) && Odd(Next(x))
  {
  }

  lemma NextOfOdd(x: bv32)
    requires Odd(x) && x != ALL_ONES
    ensures Half(Next(x)) == Next(Half(x)) && !Odd(Next(x)) && Half(x) != ALL_ONES
  {
  }

  // Counting up by one carries from place to place.
  lemma {:induction false} NextLow(x: bv32, k: nat)
    requires x != ALL_ONES
    ensures Low(Next(x), k) == (Low(x, k) + 1) % Pow2(k)
    decreases k
  {
    hide Odd, Half, Next, Low, Pow2;
    if k > 0 {
      LowStep(x, k);
      LowStep(Next(x), k);
      if Odd(x) {
        NextOfOdd(x);
        NextLow(Half(x), k - 1);
        CarryDigit(Low(Half(x), k - 1), Pow2(k - 1));
      } else {
        NextOfEven(x);
        LowBound(Half(x), k - 1);
        NoCarry(Low(Half(x), k - 1), Pow2(k - 1));
      }
    } else {
      LowNone(x);
      LowNone(Next(x));
    }
  }

  lemma LowNone(x: bv32)
    ensures Low(x, 0) == 0 && Pow2(0) == 1
  {
  }

  lemma NoCarry(l: nat, p: nat)
    requires l < p
    ensures (2 * l + 1) % (2 * p) == 2 * l + 1
  {
    DivModUnique(2 * l + 1, 2 * p, 0, 2 * l + 1);
  }

  lemma CarryDigit(l: nat, p: nat)
    requires p > 0
    ensures (2 * l + 2) % (2 * p) == 2 * ((l + 1) % p)
  {
    DivModTwice(2 * l + 2, p);
  }

  lemma OnesValue()
    ensures Value(ALL_ONES) == TWO_TO_THE_32 - 1
  {
    OnesOf24();
  }

  lemma OnesOf8()
    ensures Low(0xff, 8) == 0xff
  {
  }

  lemma OnesOf16()
    ensures Low(0xffff, 16) == 0xffff
  {
    OnesOf8();
  }

  lemma OnesOf24()
    ensures Low(0xff_ffff, 24) == 0xff_ffff
  {
    OnesOf16();
  }

  lemma {:induction false} ZeroLow(k: nat)
    ensures Low(0, k) == 0
  {
    if k > 0 {
      ZeroLow(k - 1);
    }
  }

  // The count wraps around at 2^32.
  lemma NextValue(x: bv32)
    ensures Value(Next(x)) == (Value(x) + 1) % TWO_TO_THE_32
  {
    hide Low, Next;
    if x == ALL_ONES {
      NextOfOnes();
    } else {
      NextLow(x, 32);
      Pow2Of32();
    }
  }

  lemma NextOfOnes()
    ensures Value(Next(ALL_ONES)) == 0 && Value(ALL_ONES) == TWO_TO_THE_32 - 1
  {
    OnesValue();
    assert Next(ALL_ONES) == 0;
    hide Next, Low;
    ZeroLow(32);
  }

  // ---------- subtraction ----------

  function Plus(x: bv32, y: bv32): bv32 {
    x + y
  }

  lemma PlusZero(x: bv32)
    ensures Plus(x, 0) == x
  {
  }

  lemma PlusNext(x: bv32, y: bv32)
    ensures Plus(x + 1, y - 1) == Plus(x, y) && y - 1 + 1 == y
  {
  }

  function Prev(x: bv32): bv32 {
    x - 1
  }

  lemma PlusBack(x: bv32, y: bv32)
    ensures Plus(x - y, y) == x
  {
  }

  lemma CountOn(x: bv32, y: bv32)
    requires y != 0
    ensures Plus(Next(x), Prev(y)) == Plus(x, y) && Next(Prev(y)) == y && Prev(y) < y
  {
    PlusNext(x, y);
    hide Plus;
  }

  // Addition is counting up y times.
  lemma {:induction false} AddValue(x: bv32, y: bv32)
    ensures Value(Plus(x, y)) == (Value(x) + Value(y)) % TWO_TO_THE_32
    decreases y
  {
    hide Value, Plus, Next, Prev;
    if y == 0 {
      PlusZero(x);
      ZeroValue();
    } else {
      CountOn(x, y);
      AddValue(Next(x), Prev(y));
      NextValue(x);
      NextValue(Prev(y));
      ModOnce(Value(x), Value(Prev(y)));
    }
  }

  lemma ModOnce(x: word, y: word)
    ensures ((x + 1) % TWO_TO_THE_32 + y) % TWO_TO_THE_32 == (x + (y + 1) % TWO_TO_THE_32) % TWO_TO_THE_32
  {
  }

  lemma ZeroValue()
    ensures Value(0) == 0
  {
    ZeroLow(32);
  }

  // a -= b
  lemma SubValue(x: bv32, y: bv32, d: bv32)
    requires d == x - y
    ensures Value(d) == Sub(Value(x), Value(y))
  {
    hide Value, Plus;
    PlusBack(x, y);
    AddValue(d, y);
    SubUnique(Value(x), Value(y), Value(d));
  }

  lemma SubUnique(x: word, y: word, z: word)
    requires x == (z + y) % TWO_TO_THE_32
    ensures z == Sub(x, y)
  {
  }

  // Value numbers the words: it is 0 at 0 and counts up with them, modulo 2^32.
  lemma ValueCounts(x: bv32)
    ensures Value(0) == 0 && Value(x + 1) == (Value(x) + 1) % TWO_TO_THE_32
  {
    hide Value;
    ZeroValue();
    NextValue(x);
  }

  // Every number of 32 bits is the value of a word.
  lemma {:induction false} ValueOnto(v: word) returns (x: bv32)
    ensures Value(x) == v
  {
    hide Value, Next;
    if v == 0 {
      x := 0;
      ZeroValue();
    } else {
      var y := ValueOnto(v - 1);
      x := Next(y);
      NextValue(y);
    }
  }

  // ---------- exclusive or ----------

  function Eor(x: bv32, y: bv32): bv32 {
    x ^ y
  }

  lemma EorBit(x: bv32, y: bv32)
    ensures Half(Eor(x, y)) == Eor(Half(x), Half(y))
    ensures Odd(Eor(x, y)) <==> Odd(x) != Odd(y)
  {
  }

  lemma {:induction false} EorLow(x: bv32, y: bv32, k: nat)
    ensures Low(Eor(x, y), k) == XorBits(Low(x, k), Low(y, k))
    decreases k
  {
    hide Odd, Half, Eor, Low, Pow2, XorBits;
    if k > 0 {
      EorBit(x, y);
      EorLow(Half(x), Half(y), k - 1);
      LowStep(x, k);
      LowStep(y, k);
      LowStep(Eor(x, y), k);
      XorDigit(Low(Half(x), k - 1), Bit(x), Low(Half(y), k - 1), Bit(y));
    } else {
      LowNone(x);
      LowNone(y);
      LowNone(Eor(x, y));
      assert XorBits(0, 0) == 0 by { XorDigit(0, 0, 0, 0); }
    }
  }

  lemma XorDigit(x: nat, a: nat, y: nat, b: nat)
    requires a <= 1 && b <= 1
    ensures XorBits(2 * x + a, 2 * y + b) == 2 * XorBits(x, y) + (if a != b then 1 else 0)
  {
    assert (2 * x + a) / 2 == x && (2 * y + b) / 2 == y;
    assert (2 * x + a) % 2 == a && (2 * y + b) % 2 == b;
  }

  // a ^= b
  lemma XorValue(x: bv32, y: bv32, r: bv32)
    requires r == x ^ y
    ensures Value(r) == Xor(Value(x), Value(y))
  {
    hide Low;
    EorLow(x, y, 32);
  }

  // ---------- shifts ----------

  function Right(x: bv32, n: nat): bv32
    decreases n
  {
    if n == 0 then x else Right(Half(x), n - 1)
  }

  function Left(x: bv32, n: nat): bv32
    decreases n
  {
    if n == 0 then x else Left(x << 1, n - 1)
  }

  lemma {:induction false} LowTop(x: bv32, k: nat)
    requires Right(x, k) == 0
    ensures Low(x, k + 1) == Low(x, k)
    decreases k
  {
    hide Half, Low, Odd;
    LowStep(x, k + 1);
    if k > 0 {
      LowStep(x, k);
      LowTop(Half(x), k - 1);
    } else {
      ZeroLow(1);
      LowNone(x);
    }
  }

  lemma {:induction false} RightOn(x: bv32, m: nat, n: nat)
    ensures Right(x, m + n) == Right(Right(x, m), n)
    decreases m
  {
    if m > 0 {
      RightOn(Half(x), m - 1, n);
    }
  }

  // Nothing is left after 32 places.
  lemma RightAll(x: bv32)
    ensures Right(Half(x), 31) == 0
  {
    var y := Right(x, 16);
    RightOn(x, 8, 8);
    RightOn(y, 8, 8);
    RightOn(x, 16, 16);
    RightBy8(x);
    RightBy8(x >> 8);
    RightBy8(y);
    RightBy8(y >> 8);
    assert Right(x, 32) == Right(Half(x), 31);
    hide Half, Right;
  }

  lemma RightBy8(x: bv32)
    ensures Right(x, 8) == x >> 8
  {
  }

  lemma HalfValue(x: bv32)
    ensures Value(Half(x)) == Value(x) / 2
  {
    hide Low, Half, Right;
    LowStep(x, 32);
    RightAll(x);
    LowTop(Half(x), 31);
  }

  lemma Doubled(x: bv32)
    ensures Plus(x, x) == x << 1
  {
  }

  lemma DoubleValue(x: bv32)
    ensures Value(x << 1) == 2 * Value(x) % TWO_TO_THE_32
  {
    hide Value, Plus;
    Doubled(x);
    AddValue(x, x);
  }

  lemma {:induction false} RightValue(x: bv32, n: nat)
    ensures Value(Right(x, n)) == Shr(Value(x), n)
    decreases n
  {
    hide Value, Half;
    if n > 0 {
      HalfValue(x);
      RightValue(Half(x), n - 1);
    }
  }

  lemma {:induction false} LeftValue(x: bv32, n: nat)
    ensures Value(Left(x, n)) == ShiftLeft(Value(x), n)
    decreases n
  {
    hide Value;
    if n > 0 {
      DoubleValue(x);
      LeftValue(x << 1, n - 1);
      ModTwice(Value(x), Pow2(n - 1));
    }
  }

  lemma ModTwice(v: nat, p: nat)
    ensures 2 * v % TWO_TO_THE_32 * p % TWO_TO_THE_32 == v * (2 * p) % TWO_TO_THE_32
  {
    var m := TWO_TO_THE_32;
    var q, r := 2 * v / m, 2 * v % m;
    var s, t := r * p / m, r * p % m;
    assert v * (2 * p) == (q * m + r) * p == (q * p) * m + r * p == (q * p + s) * m + t;
    DivModUnique(v * (2 * p), m, q * p + s, t);
  }

  // ---------- the nine lines ----------

  // What a line leaves in x.
  method MixLine(x: bv32, y: bv32, z: bv32, f: bv32) returns (r: bv32)
    ensures Value(r) == Line(Value(x), Value(y), Value(z), Value(f))
  {
    hide Value, Sub, Xor;
    r := x - y;
    ghost var d := r;
    r := r - z;
    ghost var e := r;
    r := r ^ f;
    SubValue(x, y, d);
    SubValue(d, z, e);
    XorValue(e, f, r);
  }

  lemma RightBy3(x: bv32)
    ensures Value(x >> 3) == ShiftRight(Value(x), 3)
  {
    assert Right(x, 3) == x >> 3;
    hide Value, ShiftRight, Right;
    RightValue(x, 3);
  }

  lemma RightBy5(x: bv32)
    ensures Value(x >> 5) == ShiftRight(Value(x), 5)
  {
    assert Right(x, 5) == x >> 5;
    hide Value, ShiftRight, Right;
    RightValue(x, 5);
  }

  lemma RightBy12(x: bv32)
    ensures Value(x >> 12) == ShiftRight(Value(x), 12)
  {
    assert Right(x, 12) == x >> 12;
    hide Value, ShiftRight, Right;
    RightValue(x, 12);
  }

  lemma RightBy13(x: bv32)
    ensures Value(x >> 13) == ShiftRight(Value(x), 13)
  {
    assert Right(x, 13) == x >> 13;
    hide Value, ShiftRight, Right;
    RightValue(x, 13);
  }

  lemma RightBy15(x: bv32)
    ensures Value(x >> 15) == ShiftRight(Value(x), 15)
  {
    assert Right(x, 15) == x >> 15;
    hide Value, ShiftRight, Right;
    RightValue(x, 15);
  }

  lemma LeftBy8(x: bv32)
    ensures Value(x << 8) == ShiftLeft(Value(x), 8)
  {
    assert Left(x, 8) == x << 8;
    hide Value, ShiftLeft, Left;
    LeftValue(x, 8);
  }

  lemma LeftBy10(x: bv32)
    ensures Value(x << 10) == ShiftLeft(Value(x), 10)
  {
    assert Left(x, 10) == x << 10;
    hide Value, ShiftLeft, Left;
    LeftValue(x, 10);
  }

  lemma LeftBy16(x: bv32)
    ensures Value(x << 16) == ShiftLeft(Value(x), 16)
  {
    LeftIs16(x);
    hide Value, ShiftLeft, Left;
    LeftValue(x, 16);
  }

  lemma LeftIs16(x: bv32)
    ensures Left(x, 16) == x << 16
  {
    assert Left(x, 16) == Left(x << 8, 8) by {
      assert Left(x, 16) == Left(x << 4, 12);
    }
  }

  // HASH_JEN_MIX
  method HashJenMix(a0: bv32, b0: bv32, c0: bv32) returns (a: bv32, b: bv32, c: bv32)
    ensures Mix(Value(a), Value(b), Value(c)) == JenMix(Mix(Value(a0), Value(b0), Value(c0)))
  {
    hide Value, Line, ShiftLeft, ShiftRight;
    a, b, c := a0, b0, c0;
    RightBy13(c);
    a := MixLine(a, b, c, c >> 13);
    LeftBy8(a);
    b := MixLine(b, c, a, a << 8);
    RightBy13(b);
    c := MixLine(c, a, b, b >> 13);
    RightBy12(c);
    a := MixLine(a, b, c, c >> 12);
    LeftBy16(a);
    b := MixLine(b, c, a, a << 16);
    RightBy5(b);
    c := MixLine(c, a, b, b >> 5);
    RightBy3(c);
    a := MixLine(a, b, c, c >> 3);
    LeftBy10(a);
    b := MixLine(b, c, a, a << 10);
    RightBy15(b);
    c := MixLine(c, a, b, b >> 15);
  }
}

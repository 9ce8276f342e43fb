/** floor of hxlib/math.c: clearing fraction bits in the two words of a double. */
module Floor {
  import opened CTypes
  import opened Shifts
  import opened Ieee

  /** r is n, or -n below zero, where an integer n is Shl(n, one) units of 2^-1074, and it is the largest integer not
      above x. */
  ghost predicate FloorIs(x: Double, r: Double, n: nat, one: nat)
  {
    && r.Finite() && r.Negative() == x.Negative() && r.Mag() == Shl(n, one)
    && if x.Negative() then (n == 0 || Shl(n - 1, one) < x.Mag()) && x.Mag() <= Shl(n, one)
       else Shl(n, one) <= x.Mag() < Shl(n + 1, one)
  }

  ghost predicate IsFloor(x: Double, r: Double) { exists n: nat :: FloorIs(x, r, n, 1074) }

  /** The low n bits of a word, and the word without them. */
  function LowBits(w: nat, n: nat): int { w - Shl(Shr(w, n), n) }
  function ClearLow(w: nat, n: nat): int { Shl(Shr(w, n), n) }

  lemma ClearLowBounds(w: nat, n: nat)
    ensures 0 <= ClearLow(w, n) <= w < ClearLow(w, n) + Shl(1, n)
    ensures 0 <= LowBits(w, n) < Shl(1, n)
  {
    ShrBounds(w, n);
    ShlSum(Shr(w, n), 1, n);
  }

  /** Clearing low bits of a two-word number: within the low word, or all of it and some of the high word. */
  lemma ClearInLow(h: nat, w: U32, k: nat)
    requires k <= 32
    ensures ClearLow(Join(h, w), k) == Join(h, ClearLow(w, k))
  {
    ShlShl(h, 32 - k, k);
    ShlConstants(h);
    ClearLowBounds(w, k);
    var q := Shl(h, 32 - k) + Shr(w, k);
    ShlSum(Shl(h, 32 - k), Shr(w, k), k);
    ShlSum(q, 1, k);
    ShrUnique(Join(h, w), k, q);
  }

  lemma ClearInHigh(h: nat, w: U32, n: nat)
    ensures ClearLow(Join(h, w), n + 32) == Join(ClearLow(h, n), 0)
  {
    var q := Shr(h, n);
    ShrBounds(h, n);
    ShlShl(q, n, 32);
    ShlShl(q + 1, n, 32);
    ShlConstants(Shl(q, n));
    ShlConstants(Shl(q + 1, n));
    ShrUnique(Join(h, w), n + 32, q);
  }

  // ---------------------------------------------------------------- the number as one integer

  lemma Unique(a: int, b: int, c: int, d: int)
    requires a * 0x10_0000_0000_0000 + b == c * 0x10_0000_0000_0000 + d
    requires 0 <= b < 0x10_0000_0000_0000 && 0 <= d < 0x10_0000_0000_0000
    ensures a == c && b == d
  {
  }

  lemma MagOf(x: Double, e: nat, f: nat, m: nat)
    requires x.Exponent() == e && x.Fraction() == f && 1 <= e < 0x7ff && m == 0x10_0000_0000_0000 + f
    ensures x.Finite() && x.Mag() == Shl(m, e - 1)
  {
  }

  /** Normal numbers: the code of m * 2^(e - 1), also when rounding up has made m a power of two too large. */
  lemma CodeMag(x: Double, e: nat, m: nat)
    requires Code(x) == (e - 1) * 0x10_0000_0000_0000 + m && 1 <= e < 2046
    requires 0x10_0000_0000_0000 <= m <= 0x20_0000_0000_0000
    ensures x.Finite() && x.Mag() == Shl(m, e - 1)
  {
    CodeFields(x);
    var xe, xf, f := x.Exponent(), x.Fraction(), m - 0x10_0000_0000_0000;
    if m < 0x20_0000_0000_0000 {
      Unique(xe, xf, e, f);
      MagOf(x, e, f, m);
    } else {
      Unique(xe, xf, e + 1, 0);
      MagOf(x, e + 1, 0, 0x10_0000_0000_0000);
      DoubleThenShift(0x10_0000_0000_0000, e - 1);
    }
  }

  lemma ShrAbove(x: nat, m: nat, k: nat, q: nat)
    requires q == Shr(m, k)
    ensures Shr(Shl(x, k) + m, k) == x + q && Shl(x + q, k) == Shl(x, k) + Shl(q, k)
  {
    ShrBounds(m, k);
    ShlSum(x, q, k);
    ShlSum(x, q + 1, k);
    ShrUnique(Shl(x, k) + m, k, x + q);
  }

  /** A multiple of 2^k stays when k low bits are cleared. */
  lemma ClearAbove(x: nat, m: nat, k: nat)
    ensures ClearLow(Shl(x, k) + m, k) == Shl(x, k) + ClearLow(m, k)
  {
    ShrAbove(x, m, k, Shr(m, k));
  }

  /** So does a multiple of 2^52, or of 2^31, when fewer bits are cleared. */
  lemma ClearBelow(a: nat, m: nat, k: nat)
    requires k <= 52
    ensures ClearLow(a * 0x10_0000_0000_0000 + m, k) == a * 0x10_0000_0000_0000 + ClearLow(m, k)
  {
    ShlConstants(a);
    ShlShl(a, 52 - k, k);
    ClearAbove(Shl(a, 52 - k), m, k);
  }

  lemma ClearPlusOne(c: nat, k: nat)
    ensures ClearLow(c + Shl(1, k), k) == ClearLow(c, k) + Shl(1, k)
  {
    ShrBounds(c, k);
    ShlSum(Shr(c, k), 1, k);
    ShlSum(Shr(c, k) + 1, 1, k);
    ShrUnique(c + Shl(1, k), k, Shr(c, k) + 1);
  }

  // ---------------------------------------------------------------- what the code has to become

  /** x has k bits that stand for less than one; m is its significand. */
  ghost predicate Fractional(x: Double, k: nat, m: nat)
  {
    && 1 <= k <= 52 && x.Exponent() == 1075 - k
    && m == 0x10_0000_0000_0000 + x.Fraction()
  }

  /** The code without those bits; for a negative number that is not an integer, one more. */
  function Target(x: Double, k: nat): nat
  {
    if x.Negative() then ClearLow(Code(x) + Shl(1, k), k) else ClearLow(Code(x), k)
  }

  lemma SignificandBounds(m: nat, k: nat)
    requires 1 <= k <= 52 && 0x10_0000_0000_0000 <= m < 0x20_0000_0000_0000
    ensures 0x10_0000_0000_0000 <= ClearLow(m, k) && ClearLow(m, k) + Shl(1, k) <= 0x20_0000_0000_0000
  {
    ClearBelow(1, m - 0x10_0000_0000_0000, k);
    ClearLowBounds(m - 0x10_0000_0000_0000, k);
    var f := m - 0x10_0000_0000_0000;
    ShlConstants(1);
    ShlShl(1, 52 - k, k);
    ShrBounds(f, k);
    ShlOrder(Shr(f, k), Shl(1, 52 - k), k);
    ShlSum(Shr(f, k), 1, k);
    ShlGrowsTo(Shr(f, k) + 1, Shl(1, 52 - k), k);
  }

  lemma ShlGrowsTo(a: int, b: int, k: nat)
    requires a <= b
    ensures Shl(a, k) <= Shl(b, k)
  {
    ShlOrder(a, b, k);
  }

  /** q * 2^k * 2^(e - 1) is q ones. */
  lemma Ones(q: nat, k: nat, e: nat, one: nat)
    requires k <= 52 && e == 1075 - k && one == 1074
    ensures Shl(Shl(q, k), e - 1) == Shl(q, one)
  {
    ShlShl(q, k, e - 1);
  }

  lemma FractionalMag(x: Double, k: nat, m: nat)
    requires Fractional(x, k, m)
    ensures 0x10_0000_0000_0000 <= m < 0x20_0000_0000_0000 && x.Finite() && x.Mag() == Shl(m, 1074 - k)
    ensures Code(x) == (1074 - k) * 0x10_0000_0000_0000 + m
  {
    CodeFields(x);
    MagOf(x, 1075 - k, x.Fraction(), m);
  }

  /** Between q ones and q + 1 ones. */
  lemma Bracket(m: nat, k: nat, q: nat, one: nat)
    requires 1 <= k <= 52 && q == Shr(m, k) && one == 1074
    ensures Shl(q, one) <= Shl(m, 1074 - k) < Shl(q + 1, one)
    ensures Shl(q, one) == Shl(m, 1074 - k) <==> LowBits(m, k) == 0
  {
    Ones(q, k, 1075 - k, one);
    Ones(q + 1, k, 1075 - k, one);
    ShrBounds(m, k);
    ShlOrder(m, Shl(q + 1, k), 1074 - k);
    ShlOrder(Shl(q, k), m, 1074 - k);
  }

  lemma TargetCode(x: Double, k: nat, m: nat, n: nat)
    requires Fractional(x, k, m) && n == if x.Negative() then Shr(m, k) + 1 else Shr(m, k)
    ensures Target(x, k) == (1074 - k) * 0x10_0000_0000_0000 + Shl(n, k)
    ensures 0x10_0000_0000_0000 <= Shl(n, k) <= 0x20_0000_0000_0000
  {
    FractionalMag(x, k, m);
    ClearBelow(1074 - k, m, k);
    ClearPlusOne(Code(x), k);
    SignificandBounds(m, k);
    ShlSum(Shr(m, k), 1, k);
  }

  /** Clearing the bits below one, after adding one if the number is negative, gives the floor. */
  lemma TargetIsFloor(x: Double, r: Double, k: nat, m: nat, one: nat) returns (n: nat)
    requires Fractional(x, k, m) && LowBits(m, k) != 0 && one == 1074
    requires r.Negative() == x.Negative() && Code(r) == Target(x, k)
    ensures FloorIs(x, r, n, one)
  {
    var q := Shr(m, k);
    n := if x.Negative() then q + 1 else q;
    TargetMag(x, r, k, m, n, one);
    FractionalMag(x, k, m);
    Bracket(m, k, q, one);
  }

  lemma TargetMag(x: Double, r: Double, k: nat, m: nat, n: nat, one: nat)
    requires Fractional(x, k, m) && one == 1074 && Code(r) == Target(x, k)
    requires n == if x.Negative() then Shr(m, k) + 1 else Shr(m, k)
    ensures r.Finite() && r.Mag() == Shl(n, one)
  {
    TargetCode(x, k, m, n);
    CodeMag(r, 1075 - k, Shl(n, k));
    Ones(n, k, 1075 - k, one);
  }

  lemma IntegralIsFloor(x: Double, k: nat, m: nat, one: nat) returns (n: nat)
    requires Fractional(x, k, m) && LowBits(m, k) == 0 && one == 1074
    ensures FloorIs(x, x, n, one)
  {
    FractionalMag(x, k, m);
    n := Shr(m, k);
    Bracket(m, k, n, one);
    ShlSum(n - 1, 1, one);
    ShlGrows(1, 0, one);
  }

  /** From 2^52 on every number is an integer. */
  lemma LargeIsFloor(x: Double, one: nat) returns (n: nat)
    requires 1075 <= x.Exponent() < 0x7ff && one == 1074
    ensures FloorIs(x, x, n, one)
  {
    var e, m := x.Exponent(), 0x10_0000_0000_0000 + x.Fraction();
    CodeFields(x);
    MagOf(x, e, x.Fraction(), m);
    n := Shl(m, e - 1 - one);
    ShlShl(m, e - 1 - one, one);
    ShlSum(n, 1, one);
    ShlSum(n - 1, 1, one);
    ShlGrows(1, 0, one);
  }

  /** Below one. */
  lemma SmallMag(x: Double, one: nat)
    requires x.Exponent() < 1023 && one == 1074
    ensures x.Mag() < Shl(1, one)
  {
    CodeFields(x);
    var f, g := Shape(x);
    var h := one - 53;
    ShlConstants(1);
    if x.Exponent() == 0 {
      ShlGrows(1, 52, one);
    } else {
      var m, e := 0x10_0000_0000_0000 + x.Fraction(), x.Exponent();
      MagOf(x, e, x.Fraction(), m);
      ShlShl(1, 53, h);
      ShlOrder(m, 0x20_0000_0000_0000, e - 1);
      ShlGrows(0x20_0000_0000_0000, e - 1, h);
    }
  }

  // ---------------------------------------------------------------- the code

  /** The bits below one in both words. */
  lemma LowOfBoth(x: Double, k: nat, m: nat)
    requires Fractional(x, k, m)
    ensures k <= 32 ==> LowBits(m, k) == LowBits(x.lo, k)
    ensures k > 32 ==> LowBits(m, k) == Join(LowBits(x.hi % 0x8000_0000, k - 32), x.lo)
  {
    FractionalMag(x, k, m);
    ClearBelow(1074 - k, m, k);
    if k <= 32 {
      ClearInLow(x.hi % 0x8000_0000, x.lo, k);
    } else {
      ClearInHigh(x.hi % 0x8000_0000, x.lo, k - 32);
    }
  }

  lemma ClearUnder(s: nat, h: nat, n: nat)
    requires n <= 20
    ensures ClearLow(s * 0x8000_0000 + h, n) == s * 0x8000_0000 + ClearLow(h, n)
  {
    ShlConstants(s);
    ShlShl(s, 31 - n, n);
    ClearAbove(Shl(s, 31 - n), h, n);
  }

  /** The sign bit is not touched by clearing bits below it. */
  lemma SignApart(hi: U32, n: nat)
    requires n <= 20
    ensures LowBits(hi, n) == LowBits(hi % 0x8000_0000, n)
    ensures 0 <= ClearLow(hi, n) <= hi && ClearLow(hi, n) % 0x8000_0000 == ClearLow(hi % 0x8000_0000, n)
    ensures ClearLow(hi, n) >= 0x8000_0000 <==> hi >= 0x8000_0000
  {
    var s, h := hi / 0x8000_0000, hi % 0x8000_0000;
    assert hi == s * 0x8000_0000 + h && 0 <= s <= 1;
    ClearLowBounds(h, n);
    ClearUnder(s, h, n);
    var c, c' := ClearLow(h, n), ClearLow(hi, n);
    SignKept(s, h, c, c');
  }

  lemma SignKept(s: nat, h: nat, c: int, c': int)
    requires 0 <= s <= 1 && 0 <= c <= h < 0x8000_0000 && c' == s * 0x8000_0000 + c
    ensures c' % 0x8000_0000 == c && (c' >= 0x8000_0000 <==> s * 0x8000_0000 + h >= 0x8000_0000)
  {
    DivModUnique(c', 0x8000_0000, s, c);
  }

  lemma SmallHigh(x: Double)
    requires x.Exponent() < 1075
    ensures x.hi % 0x8000_0000 < 0x4340_0000 && (x.Negative() ==> x.hi == 0x8000_0000 + x.hi % 0x8000_0000)
  {
    var s, e, f := Split(x);
  }

  /** Adding 2^k to the two words, with a carry from the low to the high one. */
  method AddOne(x: Double, k: nat) returns (y: Double)
    requires 1 <= k <= 32 && x.Exponent() < 1075 && x.Negative()
    ensures y.Negative() && Code(y) == Code(x) + Shl(1, k)
  {
    SmallHigh(x);
    ShlConstants(1);
    if k == 32 {
      return Double(x.hi + 1, x.lo);
    }
    ShlGrows(1, k, 31);
    var j := Wrap(x.lo + Shl(1, k));
    y := Double(if j < x.lo then x.hi + 1 else x.hi, j);
  }

  /** 20 <= j0 <= 51: the bits below one are in the low word. */
  method FloorLow(x: Double, k: nat) returns (r: Double)
    requires 1 <= k <= 32 && x.Exponent() == 1075 - k
    ensures IsFloor(x, r)
  {
    ghost var m := 0x10_0000_0000_0000 + x.Fraction();
    LowOfBoth(x, k, m);
    if LowBits(x.lo, k) == 0 {
      ghost var n := IntegralIsFloor(x, k, m, 1074);
      return x;
    }
    var y := x;
    if x.Negative() {
      y := AddOne(x, k);
    }
    ClearLowBounds(y.lo, k);
    ClearInLow(y.hi % 0x8000_0000, y.lo, k);
    r := Double(y.hi, ClearLow(y.lo, k));
    ghost var n := TargetIsFloor(x, r, k, m, 1074);
  }

  /** Adding 2^n to the high word adds 2^(n + 32) to the number. */
  lemma AddHigh(x: Double, n: nat)
    requires n <= 20 && x.Exponent() < 1075 && x.Negative()
    ensures 0 < Shl(1, n) && x.hi + Shl(1, n) < 0x1_0000_0000
    ensures (x.hi + Shl(1, n)) % 0x8000_0000 == x.hi % 0x8000_0000 + Shl(1, n)
    ensures Join(x.hi % 0x8000_0000 + Shl(1, n), x.lo) == Code(x) + Shl(1, n + 32)
  {
    SmallHigh(x);
    ShlConstants(1);
    ShlGrows(1, n, 20);
    ShlShl(1, n, 32);
    ShlConstants(Shl(1, n));
  }

  /** What is left of the high word once the bits below one have been cleared. */
  method ClearedHigh(x: Double, n: nat) returns (r: Double)
    requires 1 <= n <= 20 && x.Exponent() < 1075
    ensures r.Negative() == x.Negative() && Code(r) == Target(x, n + 32)
  {
    var i0 := x.hi;
    if x.Negative() {
      AddHigh(x, n);
      i0 := i0 + Shl(1, n);
    }
    SignApart(i0, n);
    ClearInHigh(i0 % 0x8000_0000, x.lo, n);
    r := Double(ClearLow(i0, n), 0);
  }

  /** 0 <= j0 <= 19: the low word and the n low bits of the high word are below one. */
  method FloorHigh(x: Double, n: nat) returns (r: Double)
    requires 1 <= n <= 20 && x.Exponent() == 1043 - n
    ensures IsFloor(x, r)
  {
    ghost var m, h := 0x10_0000_0000_0000 + x.Fraction(), x.hi % 0x8000_0000;
    LowOfBoth(x, n + 32, m);
    SignApart(x.hi, n);
    ClearLowBounds(h, n);
    if LowBits(x.hi, n) == 0 && x.lo == 0 {
      ghost var q := IntegralIsFloor(x, n + 32, m, 1074);
      return x;
    }
    r := ClearedHigh(x, n);
    ghost var q := TargetIsFloor(x, r, n + 32, m, 1074);
  }

  /** floor: NaN stays NaN, an infinity itself, and every finite number becomes the largest integer not above it. */
  method Floor(x: Double) returns (r: Double)
    ensures x.NaN() ==> r.NaN()
    ensures x.Infinite() ==> r == x
    ensures x.Finite() ==> IsFloor(x, r)
  {
    var j0 := x.Exponent() - 0x3ff;
    if j0 < 0 {
      r := FloorSmall(x);
    } else if j0 < 20 {
      r := FloorHigh(x, 20 - j0);
    } else if j0 == 0x400 {
      r := if x.NaN() then QUIET_NAN else x;
    } else if j0 > 51 {
      ghost var n := LargeIsFloor(x, 1074);
      r := x;
    } else {
      r := FloorLow(x, 52 - j0);
    }
  }

  /** The code of one, with either sign. */
  lemma OneMag(x: Double, one: nat)
    requires x.hi % 0x8000_0000 == 0x3ff0_0000 && x.lo == 0 && one == 1074
    ensures x.Finite() && x.Mag() == Shl(1, one)
  {
    CodeMag(x, 1023, 0x10_0000_0000_0000);
    ShlConstants(1);
    ShlShl(1, 52, one - 52);
  }

  lemma ZeroDouble(r: Double)
    requires r == Double(0, 0)
    ensures r.Finite() && !r.Negative() && r.Mag() == 0
  {
    ZeroWords(r);
  }

  lemma MinusOneDouble(r: Double, one: nat)
    requires r == Double(0xbff0_0000, 0) && one == 1074
    ensures r.Finite() && r.Negative() && r.Mag() == Shl(1, one)
  {
    OneMag(r, one);
  }

  /** The three results below one: zero for a number that is not negative, -1 for a negative one, and -0 for -0. */
  lemma SmallIsFloor(x: Double, r: Double, n: nat, one: nat)
    requires one == 1074 && x.Finite() && x.Mag() < Shl(1, one) && r.Finite() && r.Negative() == x.Negative()
    requires (n == 0 && r.Mag() == 0 && (!x.Negative() || x.Mag() == 0))
             || (n == 1 && r.Mag() == Shl(1, one) && x.Negative() && x.Mag() > 0)
    ensures FloorIs(x, r, n, one)
  {
    ShlZero(one);
  }

  /** |x| < 1: zero, or minus one below zero. */
  method FloorSmall(x: Double) returns (r: Double)
    requires x.Exponent() < 1023
    ensures IsFloor(x, r)
  {
    ghost var one := 1074;
    SmallMag(x, one);
    ZeroWords(x);
    r := x;
    ghost var n := 0;
    if !x.Negative() {
      r := Double(0, 0);
      ZeroDouble(r);
    } else if x.hi % 0x8000_0000 != 0 || x.lo != 0 {
      r, n := Double(0xbff0_0000, 0), 1;
      MinusOneDouble(r, one);
    }
    SmallIsFloor(x, r, n, one);
  }
}

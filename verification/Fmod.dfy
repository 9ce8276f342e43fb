/** The shift-and-subtract remainder of hxlib/math.c on 32-bit words: exact for every finite dividend and divisor. */
module Fmod {
  import opened CTypes
  import opened Shifts
  import opened Ieee

  // ---------------------------------------------------------------- comparing encodings

  /** The magnitude that exponent and fraction fields stand for. */
  function MagAt(e: nat, f: nat): nat { if e == 0 then f else Shl(0x10_0000_0000_0000 + f, e - 1) }

  lemma MagBelow(e: nat, f: nat, one: nat)
    requires f < one == 0x10_0000_0000_0000
    ensures MagAt(e, f) < Shl(one, e)
  {
    if e > 0 {
      ShlOrder(one + f, 2 * one, e - 1);
      ShlSum(one, one, e - 1);
    }
  }

  lemma FieldOrder(e: nat, f: nat, e': nat, f': nat, one: nat)
    requires f < one && f' < one == 0x10_0000_0000_0000 && (e < e' || (e == e' && f < f'))
    ensures MagAt(e, f) < MagAt(e', f')
  {
    if e < e' {
      MagBelow(e, f, one);
      ShlGrows(one, e, e' - 1);
      ShlOrder(one + f', one, e' - 1);
    } else if e > 0 {
      ShlOrder(one + f, one + f', e - 1);
    }
  }

  lemma FieldsOfCode(e: nat, f: nat, e': nat, f': nat, c: int, c': int)
    requires f < 0x10_0000_0000_0000 && f' < 0x10_0000_0000_0000
    requires c == e * 0x10_0000_0000_0000 + f && c' == e' * 0x10_0000_0000_0000 + f'
    ensures c < c' ==> e < e' || (e == e' && f < f')
    ensures c == c' ==> e == e' && f == f'
  {
  }

  lemma CodeParts(x: Double) returns (c: int, m: nat, e: nat, f: nat)
    requires x.Finite()
    ensures c == Code(x) == e * 0x10_0000_0000_0000 + f && f < 0x10_0000_0000_0000 && m == x.Mag() == MagAt(e, f)
  {
    CodeFields(x);
    c, m, e, f := Code(x), x.Mag(), x.Exponent(), x.Fraction();
  }

  lemma PartsOrder(c: int, m: nat, e: nat, f: nat, c': int, m': nat, e': nat, f': nat)
    requires c == e * 0x10_0000_0000_0000 + f && f < 0x10_0000_0000_0000 && m == MagAt(e, f)
    requires c' == e' * 0x10_0000_0000_0000 + f' && f' < 0x10_0000_0000_0000 && m' == MagAt(e', f')
    ensures (c < c' ==> m < m') && (c == c' ==> m == m')
  {
    FieldsOfCode(e, f, e', f', c, c');
    if c < c' {
      FieldOrder(e, f, e', f', 0x10_0000_0000_0000);
    }
  }

  /** Comparing the words compares the magnitudes. */
  lemma CodeOrder(x: Double, y: Double)
    requires x.Finite() && y.Finite()
    ensures Code(x) < Code(y) ==> x.Mag() < y.Mag()
    ensures Code(x) == Code(y) ==> x.Mag() == y.Mag()
  {
    var c, m, e, f := CodeParts(x);
    var c', m', e', f' := CodeParts(y);
    PartsOrder(c, m, e, f, c', m', e', f');
  }

  // ---------------------------------------------------------------- exponent and significand

  /** a is the 53-bit significand of the magnitude g, and e its exponent: g = a * 2^(e + 1022). */
  ghost predicate Decomposed(g: nat, a: int, e: int)
  {
    0x10_0000_0000_0000 <= a < 0x20_0000_0000_0000 && -1074 <= e <= 1023 && Shl(g, 52) == Shl(a, e + 1074)
  }

  /** e is the exponent that the shift count -1022 - e of a subnormal makes a full significand. */
  ghost predicate SubnormalExponent(h: nat, l: nat, e: int)
  {
    && -1074 <= e < -1022
    && 0x10_0000_0000_0000 <= Shl(Join(h, l), -1022 - e) < 0x20_0000_0000_0000
    && (-1022 - e > 20 ==> h == 0)
  }

  method Ilogb(h: I32, l: U32) returns (ix: I32)
    requires 0 <= h < 0x7ff0_0000 && (h != 0 || l != 0)
    ensures if h < 0x10_0000 then SubnormalExponent(h, l, ix) else ix == h / 0x10_0000 - 1023
  {
    if h < 0x10_0000 {
      var i: I32;
      ghost var v, j;
      if h == 0 {
        ix, v, j := CountShifts(-1043, l);
        LowWordExponent(l, v, j);
      } else {
        ix, v, j := CountShifts(-1022, h * 0x800);
        HighWordExponent(h, l, v, j);
      }
    } else {
      ix := h / 0x10_0000 - 1023;
    }
  }

  /** The loop that shifts a word left until its sign bit is set. */
  method CountShifts(start: I32, w: U32) returns (ix: I32, ghost v: nat, ghost j: nat)
    requires -2000 <= start < 0 && w > 0
    ensures v == Shl(w, j) && 0x8000_0000 <= v < 0x1_0000_0000 && ix == start - j && j <= 31
  {
    var i: I32 := AsInt(w);
    ix, v, j := start, w, 0;
    while i > 0
      invariant v == Shl(w, j) && 0 < v < 0x1_0000_0000 && i == AsInt(v) && ix == start - j && 0 <= j <= 31
      decreases 0x1_0000_0000 - v
    {
      if j == 31 {
        ShlConstants(w);
      }
      ix := ix - 1;
      i := AsInt(Wrap(2 * i));
      v, j := 2 * v, j + 1;
    }
  }

  lemma LowWordExponent(l: nat, v: nat, j: nat)
    requires v == Shl(l, j) && 0x8000_0000 <= v < 0x1_0000_0000 && j <= 31
    ensures SubnormalExponent(0, l, -1043 - j)
  {
    ShlShl(l, j, 21);
    ShlConstants(v);
  }

  lemma HighWordExponent(h: nat, l: U32, v: nat, j: nat)
    requires 0 < h < 0x10_0000 && v == Shl(h * 0x800, j) && 0x8000_0000 <= v < 0x1_0000_0000 && j <= 31
    ensures SubnormalExponent(h, l, -1022 - j)
  {
    ShlProduct(h, 0x800, j);
    assert 0x10_0000 <= Shl(h, j) < 0x20_0000;
    if j > 20 {
      ShlGrows(h, 21, j);
      ShlConstants(h);
    }
    assert j > 0;
    ShlSum(h * 0x1_0000_0000, l, j);
    ShlProduct(h, 0x1_0000_0000, j);
    ShiftWord(l, j);
    LowFieldFits(h, Shr(l, 32 - j), j);
  }

  /** Bringing the significand of a number into the 53-bit form, from its exponent. */
  method Align(h: I32, l: U32, ix: I32, ghost g: nat) returns (h': I32, l': U32)
    requires 0 <= h < 0x7ff0_0000
    requires if h < 0x10_0000 then SubnormalExponent(h, l, ix) else ix == h / 0x10_0000 - 1023
    requires g == if h < 0x10_0000 then Join(h, l) else Shl(Join(h % 0x10_0000 + 0x10_0000, l), h / 0x10_0000 - 1)
    ensures 0 <= h' && Decomposed(g, Join(h', l'), ix)
  {
    if ix >= -1022 {
      h' := 0x10_0000 + h % 0x10_0000;
      l' := l;
      ShlShl(Join(h', l), ix + 1022, 52);
    } else {
      var n: I32 := -1022 - ix;
      ShlShl(g, n, 52 - n);
      if n <= 31 {
        LeftPair(h, l, n);
        h' := Or(Shl(h, n), Shr(l, 32 - n));
        l' := Wrap(Shl(l, n));
      } else {
        LowMovesUp(l, n);
        h' := Shl(l, n - 32);
        l' := 0;
      }
    }
  }

  lemma LeftPair(h: nat, l: U32, n: nat)
    requires 0 < n <= 31
    ensures Join(Or(Shl(h, n), Shr(l, 32 - n)), Wrap(Shl(l, n))) == Shl(Join(h, l), n)
  {
    ShiftWord(l, n);
    OrDisjoint(h, Shr(l, 32 - n), n);
    ShiftPair(h, l, n);
  }

  lemma LowMovesUp(l: U32, n: nat)
    requires 32 <= n
    ensures Join(Shl(l, n - 32), 0) == Shl(Join(0, l), n)
  {
    ShlShl(l, n - 32, 32);
    ShlConstants(Shl(l, n - 32));
  }

  // ---------------------------------------------------------------- the shift-and-subtract loop

  /** a * 2^n is congruent to the remainder t being computed, and a is below twice the divisor. */
  ghost predicate Running(a: int, b: int, n: nat, t: nat)
  {
    b > 0 && 0 <= a < 2 * b && Rem(Shl(a, n), b) == t
  }

  lemma RunningDouble(a: nat, b: nat, n: nat, t: nat)
    requires Running(a, b, n + 1, t) && a < b
    ensures Running(2 * a, b, n, t)
  {
    ShlShl(a, 1, n);
    assert Shl(a, 1) == 2 * a;
  }

  lemma RunningSubtract(a: nat, b: nat, n: nat, t: nat)
    requires Running(a, b, n + 1, t) && a >= b
    ensures Running(2 * (a - b), b, n, t)
    ensures a == b ==> t == 0
  {
    ShlShl(a - b, 1, n);
    assert Shl(a - b, 1) == 2 * (a - b);
    ShlSum(a - b, b, n + 1);
    ShlOrder(a - b, 0, n + 1);
    RemShlMultiple(Shl(a, n + 1), b, n + 1);
    ShlZero(n);
    ShlZero(n + 1);
  }

  lemma RunningEnd(a: nat, b: nat, t: nat)
    requires Running(a, b, 0, t)
    ensures t == if a >= b then a - b else a
  {
    assert Shl(a, 0) == a;
    if a >= b {
      assert Rem(a, b) == Rem(a - b, b);
    }
  }

  /** Two-word subtraction with borrow; a negative difference shows in the sign of the high word. */
  method Difference(hx: I32, lx: U32, hy: I32, ly: U32) returns (hz: I32, lz: U32)
    requires 0 <= hx < 0x4000_0000 && 0 <= hy < 0x4000_0000
    ensures Join(hz, lz) == Join(hx, lx) - Join(hy, ly) && -0x4000_0001 <= hz < 0x4000_0000
  {
    hz := hx - hy;
    lz := Wrap(lx - ly);
    if lx < ly {
      hz := hz - 1;
    }
  }

  /** The remainder of x's significand times 2^count by y's; the early exit is an exact multiple. */
  method FixedPointMod(x0: I32, x1: U32, hy: I32, ly: U32, count: I32) returns (hx: I32, lx: U32)
    requires 0 <= x0 && 0 <= hy && 0 <= count
    requires 0 < Join(hy, ly) < 0x20_0000_0000_0000 && Join(x0, x1) < 2 * Join(hy, ly)
    ensures 0 <= hx && Join(hx, lx) == Rem(Shl(Join(x0, x1), count), Join(hy, ly))
  {
    hx, lx := x0, x1;
    var n := count;
    ghost var a: int, b: int := Join(x0, x1), Join(hy, ly);
    ghost var t := Rem(Shl(a, n), b);
    while n != 0
      invariant 0 <= n && 0 <= hx < 0x40_0000 && a == Join(hx, lx)
      invariant Running(a, b, n, t)
      decreases n
    {
      n := n - 1;
      var hz, lz := Difference(hx, lx, hy, ly);
      if hz < 0 {
        RunningDouble(a, b, n, t);
        hx, lx := Double2(hx, lx);
        a := 2 * a;
      } else {
        RunningSubtract(a, b, n, t);
        if hz == 0 && lz == 0 {
          return 0, 0;
        }
        hx, lx := Double2(hz, lz);
        a := 2 * (a - b);
      }
    }
    RunningEnd(a, b, t);
    var hz, lz := Difference(hx, lx, hy, ly);
    if hz >= 0 {
      hx, lx := hz, lz;
    }
  }

  // ---------------------------------------------------------------- back to a double

  /** Restoring the implicit bit: the exponent drops by one for every doubling, and never below the smallest. */
  method Renormalize(h: I32, l: U32, e: I32, ghost r: nat) returns (hx: I32, lx: U32, iy: I32)
    requires 0 <= h && 0 < Join(h, l) < 0x20_0000_0000_0000 && r > 0
    requires -1074 <= e <= 1023 && Shl(r, 52) == Shl(Join(h, l), e + 1074)
    ensures 0 <= hx && iy <= e && Decomposed(r, Join(hx, lx), iy)
  {
    hx, lx, iy := h, l, e;
    ShlConstants(r);
    while hx < 0x10_0000
      invariant 0 <= hx && 0 < Join(hx, lx) < 0x20_0000_0000_0000 && -1074 <= iy <= e
      invariant Shl(r, 52) == Shl(Join(hx, lx), iy + 1074)
      decreases 0x20_0000_0000_0000 - Join(hx, lx)
    {
      if iy > -1074 {
        ShlShl(Join(hx, lx), 1, iy + 1073);
        assert Shl(Join(hx, lx), 1) == 2 * Join(hx, lx);
      }
      hx, lx := Double2(hx, lx);
      iy := iy - 1;
    }
  }

  /** A double with the given sign whose words are the fields e and f. */
  lemma FromFields(z: Double, s: nat, e: nat, f: nat)
    requires s <= 1 && e < 0x7ff && f < 0x10_0000 && z.hi == s * 0x8000_0000 + e * 0x10_0000 + f
    ensures z.Finite() && z.Negative() == (s == 1)
    ensures z.Mag() == if e == 0 then Join(f, z.lo) else Shl(Join(0x10_0000 + f, z.lo), e - 1)
  {
    Fields(z, s, e, f);
  }

  /** Or-ing the sign bit into a high word below it. */
  lemma OrSign(h: nat, negative: bool)
    requires h < 0x8000_0000
    ensures Or(h, if negative then 0x8000_0000 else 0) == h + (if negative then 0x8000_0000 else 0)
  {
    ShlConstants(1);
    ShlConstants(0);
    OrCommutes(h, if negative then 0x8000_0000 else 0);
    OrDisjoint(if negative then 1 else 0, h, 31);
  }

  /** Packing a significand and exponent; a subnormal result is shifted right without losing a bit. */
  method PackRemainder(hx: I32, lx: U32, iy: I32, negative: bool, ghost r: nat) returns (z: Double)
    requires 0 <= hx && Decomposed(r, Join(hx, lx), iy) && r > 0
    ensures z.Finite() && z.Negative() == negative && z.Mag() == r
  {
    var sx: U32 := if negative then 0x8000_0000 else 0;
    ghost var s := if negative then 1 else 0;
    if iy >= -1022 {
      ExactNormal(r, Join(hx, lx), iy);
      OrExponent(hx - 0x10_0000, iy + 1023);
      var h := Or(hx - 0x10_0000, (iy + 1023) * 0x10_0000);
      OrSign(h, negative);
      z := Double(Or(h, sx), lx);
      FromFields(z, s, iy + 1023, hx - 0x10_0000);
    } else {
      var n: I32 := -1022 - iy;
      ExactSubnormal(r, Join(hx, lx), iy);
      var h: I32, l: U32 := ShiftDown(hx, lx, n);
      OrSign(h, negative);
      z := Double(Or(h, sx), l);
      FromFields(z, s, 0, h);
    }
  }

  lemma ExactNormal(r: nat, a: nat, e: int)
    requires Decomposed(r, a, e) && e >= -1022
    ensures r == Shl(a, e + 1022)
  {
    ShlShl(a, e + 1022, 52);
    ShlOrder(r, Shl(a, e + 1022), 52);
  }

  lemma ExactSubnormal(r: nat, a: nat, e: int)
    requires Decomposed(r, a, e) && e < -1022
    ensures r == Shr(a, -1022 - e) < 0x10_0000_0000_0000
  {
    var n := -1022 - e;
    ShlShl(r, n, 52 - n);
    ShlOrder(Shl(r, n), a, 52 - n);
    ShlSum(r, 1, n);
    ShrUnique(a, n, r);
    ShlShl(r, 1, n - 1);
    assert Shl(r, n) >= 2 * r;
  }

  lemma OrExponent(f: nat, e: nat)
    requires f < 0x10_0000
    ensures Or(f, e * 0x10_0000) == e * 0x10_0000 + f
  {
    ShlConstants(e);
    ShlConstants(1);
    OrCommutes(f, e * 0x10_0000);
    OrDisjoint(e, f, 20);
  }

  /** The three ways the code shifts a two-word significand right, by the size of the shift. */
  method ShiftDown(hx: I32, lx: U32, n: I32) returns (h: I32, l: U32)
    requires 0 < n <= 52 && 0 <= hx < 0x20_0000 && Shr(Join(hx, lx), n) < 0x10_0000_0000_0000
    ensures 0 <= h < 0x10_0000 && Join(h, l) == Shr(Join(hx, lx), n)
  {
    if n <= 20 {
      var c := RightPair(hx, lx, n);
      l := Or(Shr(lx, n), Wrap(Shl(hx, 32 - n)));
      h := Shr(hx, n);
    } else if n <= 31 {
      var c := RightPair(hx, lx, n);
      HighShiftedOut(hx, n);
      OrCommutes(Wrap(Shl(hx, 32 - n)), Shr(lx, n));
      l := Or(Wrap(Shl(hx, 32 - n)), Shr(lx, n));
      h := 0;
    } else {
      ShrShr(Join(hx, lx), 32, n - 32);
      ShrConstants(hx, lx);
      h, l := 0, Shr(hx, n - 32);
    }
  }

  lemma RightPair(hx: nat, lx: U32, n: nat) returns (c: nat)
    requires 0 < n <= 31
    ensures Or(Shr(lx, n), Wrap(Shl(hx, 32 - n))) < 0x1_0000_0000
    ensures Join(Shr(hx, n), Or(Shr(lx, n), Wrap(Shl(hx, 32 - n)))) == Shr(Join(hx, lx), n)
  {
    c := ShiftRightPair(hx, lx, n);
    DivModUnique(Shl(hx, 32 - n), 0x1_0000_0000, Shr(hx, n), Shl(c, 32 - n));
    assert Shr(lx, n) < Shl(1, 32 - n) by {
      ShiftWord(lx, 32 - n);
    }
    OrCommutes(Shr(lx, n), Shl(c, 32 - n));
    OrDisjoint(c, Shr(lx, n), 32 - n);
    FieldFits(c, n);
  }

  lemma FieldFits(c: nat, n: nat)
    requires n <= 32 && c < Shl(1, n)
    ensures Shl(c, 32 - n) + Shl(1, 32 - n) <= 0x1_0000_0000
  {
    ShlSum(c, 1, 32 - n);
    ShlShl(1, n, 32 - n);
    ShlConstants(1);
    ShlOrder(Shl(1, n), c + 1, 32 - n);
  }

  lemma HighShiftedOut(hx: nat, n: nat)
    requires hx < 0x20_0000 && 21 <= n
    ensures Shr(hx, n) == 0
  {
    ShlConstants(1);
    ShlGrows(1, 21, n);
    assert Shl(0, n) == 0 by { ShlSum(0, 0, n); }
    ShrUnique(hx, n, 0);
  }

  lemma ShrConstants(hx: nat, lx: U32)
    ensures Shr(Join(hx, lx), 32) == hx
  {
    ShlConstants(hx);
    ShlConstants(hx + 1);
    ShrUnique(Join(hx, lx), 32, hx);
  }

  // ---------------------------------------------------------------- fmod

  /** The remainder in units of 2^-1074, through the scaled significands. */
  lemma RemainderScale(gx: nat, gy: nat, a: nat, b: nat, ex: int, ey: int)
    requires Decomposed(gx, a, ex) && Decomposed(gy, b, ey) && gx >= gy > 0
    ensures ex >= ey
    ensures Shl(Rem(gx, gy), 52) == Shl(Rem(Shl(a, ex - ey), b), ey + 1074)
  {
    if ex < ey {
      ShlOrder(a, 0x20_0000_0000_0000, ex + 1074);
      ShlShl(0x10_0000_0000_0000, 1, ex + 1074);
      assert Shl(0x10_0000_0000_0000, 1) == 0x20_0000_0000_0000;
      ShlGrows(0x10_0000_0000_0000, ex + 1075, ey + 1074);
      ShlOrder(b, 0x10_0000_0000_0000, ey + 1074);
      ShlOrder(gx, gy, 52);
      assert false;
    }
    ShlShl(a, ex - ey, ey + 1074);
    ShlRem(gx, gy, 52);
    ShlRem(Shl(a, ex - ey), b, ey + 1074);
  }

  /** The signed zeros of the result table. */
  function Zero(negative: bool): Double { Double(if negative then 0x8000_0000 else 0, 0) }

  /** What the exceptional-value test reads off the words without the sign. */
  lemma ExceptionalWords(x: Double)
    ensures var h := x.hi % 0x8000_0000;
      && (x.Finite() <==> h < 0x7ff0_0000)
      && (x.NaN() <==> Or(h, if x.lo != 0 then 1 else 0) > 0x7ff0_0000)
      && (x.Finite() ==> (x.Mag() == 0 <==> h == 0 && x.lo == 0))
  {
    var s, e, f := Split(x);
    OrBit(x.hi % 0x8000_0000, if x.lo != 0 then 1 else 0);
  }

  lemma ZeroIsZero(negative: bool)
    ensures var z := Zero(negative); z.Finite() && z.Negative() == negative && z.Mag() == 0
  {
    Fields(Zero(negative), if negative then 1 else 0, 0, 0);
  }

  /** The remainder is exact: the sign of x, and |x| mod |y| in units of the smallest subnormal. */
  ghost predicate ExactRemainder(x: Double, y: Double, z: Double)
    requires y.Mag() > 0
  {
    z.Finite() && z.Negative() == x.Negative() && z.Mag() == Rem(x.Mag(), y.Mag())
  }

  /** A dividend no larger than the divisor is its own remainder, or leaves none. */
  lemma SmallDividend(x: Double, y: Double)
    requires x.Finite() && y.Finite() && y.Mag() > 0
    ensures Code(x) < Code(y) ==> ExactRemainder(x, y, x)
    ensures Code(x) == Code(y) ==> ExactRemainder(x, y, Zero(x.Negative()))
  {
    CodeOrder(x, y);
    ZeroIsZero(x.Negative());
  }

  method Fmod(x: Double, y: Double) returns (z: Double)
    ensures !x.Finite() || y.NaN() || (y.Finite() && y.Mag() == 0) ==> z.NaN()
    ensures x.Finite() && y.Infinite() ==> z == x
    ensures x.Finite() && y.Finite() && y.Mag() > 0 ==> ExactRemainder(x, y, z)
  {
    var hx: I32, lx: U32 := x.hi % 0x8000_0000, x.lo;
    var hy: I32, ly: U32 := y.hi % 0x8000_0000, y.lo;
    ExceptionalWords(x);
    ExceptionalWords(y);
    if (hy == 0 && ly == 0) || hx >= 0x7ff0_0000 || Or(hy, if ly != 0 then 1 else 0) > 0x7ff0_0000 {
      // (x * y) / (x * y)
      return QUIET_NAN;
    }
    if hx <= hy {
      if hx < hy || lx < ly {
        assert y.Finite() ==> ExactRemainder(x, y, x) by {
          if y.Finite() { SmallDividend(x, y); }
        }
        return x;
      }
      if lx == ly {
        SmallDividend(x, y);
        return Zero(x.Negative());
      }
    }
    assert y.Finite() && x.Mag() > y.Mag() by {
      if y.Finite() { CodeOrder(y, x); }
    }
    z := FmodLarger(x, y, hx, lx, hy, ly);
  }

  lemma WordsOf(x: Double)
    requires x.Finite()
    ensures var h := x.hi % 0x8000_0000;
      x.Mag() == if h < 0x10_0000 then Join(h, x.lo) else Shl(Join(h % 0x10_0000 + 0x10_0000, x.lo), h / 0x10_0000 - 1)
  {
    var s, e, f := Split(x);
    DivModUnique(x.hi % 0x8000_0000, 0x10_0000, e, f);
  }

  method FmodLarger(x: Double, y: Double, x0: I32, x1: U32, y0: I32, y1: U32) returns (z: Double)
    requires x.Finite() && y.Finite() && x.Mag() > y.Mag() > 0
    requires 0 <= x0 == x.hi % 0x8000_0000 < 0x7ff0_0000 && x1 == x.lo && (x0 != 0 || x1 != 0)
    requires 0 <= y0 == y.hi % 0x8000_0000 < 0x7ff0_0000 && y1 == y.lo && (y0 != 0 || y1 != 0)
    ensures ExactRemainder(x, y, z)
  {
    WordsOf(x);
    WordsOf(y);
    var ix := Ilogb(x0, x1);
    var iy := Ilogb(y0, y1);
    var hx, lx := Align(x0, x1, ix, x.Mag());
    var hy, ly := Align(y0, y1, iy, y.Mag());
    RemainderScale(x.Mag(), y.Mag(), Join(hx, lx), Join(hy, ly), ix, iy);
    hx, lx := FixedPointMod(hx, lx, hy, ly, ix - iy);
    z := FinishRemainder(hx, lx, iy, x.Negative(), Rem(x.Mag(), y.Mag()));
  }

  method FinishRemainder(h: I32, l: U32, e: I32, negative: bool, ghost r: nat) returns (z: Double)
    requires 0 <= h && Join(h, l) < 0x20_0000_0000_0000 && -1074 <= e <= 1023 && Shl(r, 52) == Shl(Join(h, l), e + 1074)
    ensures z.Finite() && z.Negative() == negative && z.Mag() == r
  {
    BothZero(r, Join(h, l), 52, e + 1074);
    assert h == 0 && l == 0 <==> r == 0;
    if h == 0 && l == 0 {
      ZeroIsZero(negative);
      return Zero(negative);
    }
    var hx, lx, iy := Renormalize(h, l, e, r);
    z := PackRemainder(hx, lx, iy, negative, r);
  }

  lemma BothZero(r: nat, a: nat, j: nat, k: nat)
    requires Shl(r, j) == Shl(a, k)
    ensures r == 0 <==> a == 0
  {
    ShlOrder(0, r, j);
    ShlOrder(0, a, k);
    ShlZero(j);
    ShlZero(k);
  }

  /** fmod in the words of C11 section 7.12.10.1: x - n * y for an integer n, with the sign of x and a magnitude below |y|. */
  lemma RemainderMeaning(x: Double, y: Double, z: Double)
    requires y.Mag() > 0 && ExactRemainder(x, y, z)
    ensures z.Mag() < y.Mag() && exists n: nat :: x.Mag() == n * y.Mag() + z.Mag()
  {
    var n := QuotientExists(x.Mag(), y.Mag());
  }

  lemma QuotientExists(a: nat, b: nat) returns (n: nat)
    requires b > 0
    ensures a == n * b + Rem(a, b)
  {
    RemIsMod(a, b);
    n := a / b;
    assert a == b * n + a % b;
  }
}

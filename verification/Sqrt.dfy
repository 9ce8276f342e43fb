/** The bit-by-bit square root of hxlib/sqrt.c on 32-bit words, correctly rounded in every rounding mode. */
module Sqrt {
  import opened CTypes
  import opened Shifts
  import opened Ieee

  /** The rounding mode the floating-point unit is in. */
  datatype Rounding = ToNearest | Upward | Downward | TowardZero

  // ---------------------------------------------------------------- specification

  /** q squared, as the sum of the first q odd numbers. */
  function SquareOf(q: nat): nat
  {
    if q == 0 then 0 else SquareOf(q - 1) + (2 * q - 1)
  }

  lemma {:induction false} SquareIsProduct(q: nat)
    ensures SquareOf(q) == q * q
  {
    if q > 0 {
      SquareIsProduct(q - 1);
      assert (q - 1) * (q - 1) == q * q - 2 * q + 1;
    }
  }

  lemma SquareOfSum(q: nat, r: nat)
    ensures SquareOf(q + r) == SquareOf(q) + 2 * (q * r) + r * r
  {
    SquareIsProduct(q);
    SquareIsProduct(q + r);
    assert (q + r) * (q + r) == q * q + 2 * (q * r) + r * r;
  }

  lemma {:induction false} SquareMono(a: nat, b: nat)
    requires a <= b
    ensures SquareOf(a) <= SquareOf(b)
    ensures a < b ==> SquareOf(a) < SquareOf(b)
  {
    if a < b {
      SquareMono(a, b - 1);
    }
  }

  lemma SquareDouble(a: nat)
    ensures SquareOf(2 * a) == 4 * SquareOf(a)
  {
    SquareIsProduct(a);
    SquareIsProduct(2 * a);
    assert (2 * a) * (2 * a) == 4 * (a * a);
  }

  /** The square of the exact root, in squared units: sqrt(x * 2^-1074) = sqrt(x * 2^1074) * 2^-1074. */
  ghost function RootSquare(x: Double): nat { Shl(x.Mag(), 1074) }

  /** z is the double that the rounding mode prescribes for the root of x (IEEE 754-2008 sections 4.3.1, 4.3.2, 5.4.1).
      For round-to-nearest, the midpoint between z and any other double lies strictly beyond the exact root. */
  ghost predicate CorrectlyRounded(x: Double, z: Double, mode: Rounding)
  {
    z.Finite() && !z.Negative() &&
    match mode
    case ToNearest =>
      (forall d: Double | d.Finite() && d.Mag() > z.Mag() :: SquareOf(d.Mag() + z.Mag()) > 4 * RootSquare(x)) &&
      (forall d: Double | d.Finite() && d.Mag() < z.Mag() :: SquareOf(d.Mag() + z.Mag()) < 4 * RootSquare(x))
    case Upward =>
      SquareOf(z.Mag()) >= RootSquare(x) &&
      forall d: Double | d.Finite() && d.Mag() < z.Mag() :: SquareOf(d.Mag()) < RootSquare(x)
    case _ =>
      SquareOf(z.Mag()) <= RootSquare(x) &&
      forall d: Double | d.Finite() && d.Mag() > z.Mag() :: SquareOf(d.Mag()) > RootSquare(x)
  }

  // ---------------------------------------------------------------- the significand

  /** The significand of a positive finite x as two words with bit 20 of the high word set, and its unbiased exponent. */
  ghost predicate Normalized(x: Double, ix0: int, ix1: int, m: int)
  {
    && 0 <= ix1 < 0x1_0000_0000 && 0x10_0000 <= ix0 < 0x20_0000 && -1074 <= m <= 1023
    && Shl(x.Mag(), 52) == Shl(Join(ix0, ix1), m + 1074)
  }

  lemma NormalCase(x: Double)
    requires x.Finite() && !x.Negative() && x.hi >= 0x10_0000
    ensures Normalized(x, x.hi % 0x10_0000 + 0x10_0000, x.lo, x.hi / 0x10_0000 - 1023)
  {
    var s, e, f := Split(x);
    ShlShl(0x10_0000_0000_0000 + x.Fraction(), e - 1, 52);
  }

  /** f * 2^k in [2^52, 2^53) bounds k, and gives the scaled value. */
  lemma SubnormalScale(f: nat, k: nat)
    requires f >= 1 && Shl(f, k) < 0x20_0000_0000_0000
    ensures k <= 52 && Shl(f, 52) == Shl(Shl(f, k), 52 - k)
  {
    if k > 52 {
      ShlGrows(f, 53, k);
      ShlConstants(f);
    }
    ShlShl(f, k, 52 - k);
  }

  /** The or that completes the high word: whatever an over-long right shift leaves touches no kept bit. */
  lemma CompleteHigh(h0: nat, w: U32, i: nat, junk: U32)
    requires i <= 20 && 0x10_0000 <= Shl(h0, i) < 0x20_0000
    requires i == 0 ==> w % 0x20_0000 == 0
    requires if i == 0 then junk == 0 || junk == w else junk == Shr(w, 32 - i)
    ensures Or(Shl(h0, i), junk) % 0x10_0000 + 0x10_0000 == Shl(h0, i) + Shr(w, 32 - i) < 0x20_0000
  {
    if i == 0 {
      JunkIsHigh(Shl(h0, i), junk);
    } else {
      OrDisjoint(h0, junk, i) by {
        ShiftWord(w, i);
      }
      LowFieldFits(h0, junk, i) by {
        ShiftWord(w, i);
      }
    }
    assert i == 0 ==> Shr(w, 32) == 0 by {
      ShiftWord(w, i);
    }
  }

  lemma JunkIsHigh(h: nat, junk: nat)
    requires junk % 0x20_0000 == 0 && 0x10_0000 <= h < 0x20_0000
    ensures Or(h, junk) % 0x10_0000 == h % 0x10_0000
  {
    var a, c, r := h / 0x10_0000, junk / 0x10_0000, h % 0x10_0000;
    OrLow20(h, junk, a, c, r);
  }

  lemma OrLow20(h: nat, junk: nat, a: nat, c: nat, r: nat)
    requires h == a * 0x10_0000 + r && junk == c * 0x10_0000 && r < 0x10_0000
    ensures Or(h, junk) % 0x10_0000 == r
  {
    ShlConstants(a);
    ShlConstants(c);
    ShlConstants(1);
    var a' := OrLowBits(a, r, c, 20);
    ShlConstants(a');
    DivModUnique(Or(h, junk), 0x10_0000, a', r);
  }

  method Normalize(x: Double) returns (ix0: I32, ix1: U32, m: I32)
    requires x.Finite() && !x.Negative() && x.Mag() > 0
    ensures Normalized(x, ix0, ix1, m)
  {
    ix0, ix1 := AsInt(x.hi), x.lo;
    m := ix0 / 0x10_0000;
    if m == 0 {
      ghost var k: nat;
      SubnormalCase(x);
      ix0, ix1, m, k := FillHighWord(x.Mag(), ix0, ix1);
      ix0, ix1, m := ShiftToTop(x.Mag(), k, ix0, ix1, m);
    } else {
      NormalCase(x);
    }
    m := m - 1023;
    ix0 := ix0 % 0x10_0000 + 0x10_0000;
  }

  lemma SubnormalCase(x: Double)
    requires x.hi < 0x10_0000
    ensures x.Mag() == Join(x.hi, x.lo)
  {
    Fields(x, 0, 0, x.hi);
  }

  /** With the leading bit at bit 20 after i more shifts, the words hold the significand. */
  lemma TopReached(f: nat, s: nat, h: nat, w: U32, i: nat, hi: nat, lo: nat)
    requires f > 0 && s <= 52 && i <= 20 && Join(h, w) == Shl(f, s)
    requires hi == Shl(h, i) + Shr(w, 32 - i) < 0x20_0000 && lo == Wrap(Shl(w, i))
    ensures s + i <= 52
    ensures Shl(f, 52) == Shl(Join(hi, lo), 52 - (s + i))
  {
    ShiftPair(h, w, i);
    ShlShl(f, s, i);
    SubnormalScale(f, s + i);
  }

  /** The one-bit steps that bring the leading bit of a subnormal fraction to bit 20. */
  method ShiftToTop(ghost f: nat, ghost s: nat, h: I32, w: U32, e: I32) returns (ix0: I32, ix1: U32, m: I32)
    requires f > 0 && s <= 52 && e + s == 0 && 0 < h < 0x20_0000
    requires Join(h, w) == Shl(f, s)
    requires h < 0x10_0000 || w % 0x20_0000 == 0
    ensures 0 <= ix0 < 0x10_0000 && -51 <= m <= 1
    ensures Shl(f, 52) == Shl((ix0 + 0x10_0000) * 0x1_0000_0000 + ix1, m + 51)
  {
    var i: I32;
    ix0, i := LeadingBit(h);
    m := e - (i - 1);
    // C leaves a shift by 32 undefined; it yields 0 or, where the machine masks the count, the word itself
    var masked: bool := *;
    var shifted: U32 := if i > 0 then Shr(w, 32 - i) else if masked then w else 0;
    CompleteHigh(h, w, i, shifted);
    ix0 := Or(ix0, shifted) % 0x10_0000;
    ix1 := Wrap(Shl(w, i));
    TopReached(f, s, h, w, i, ix0 + 0x10_0000, ix1);
  }

  method LeadingBit(h: I32) returns (ix0: I32, i: I32)
    requires 0 < h < 0x20_0000
    ensures 0 <= i <= 20 && ix0 == Shl(h, i) && 0x10_0000 <= ix0 < 0x20_0000
    ensures h >= 0x10_0000 <==> i == 0
  {
    ix0, i := h, 0;
    while ix0 / 0x10_0000 % 2 == 0
      invariant 0 <= i <= 20 && 0 < ix0 < 0x20_0000
      invariant ix0 == Shl(h, i)
      invariant i > 0 ==> h < 0x10_0000
      decreases 0x20_0000 - ix0
    {
      if i == 20 {
        ShlConstants(h);
      }
      ix0 := 2 * ix0;
      i := i + 1;
    }
  }

  /** The 21-bit steps that move a subnormal fraction into the high word. */
  method FillHighWord(ghost f: nat, h: I32, w: U32) returns (ix0: I32, ix1: U32, m: I32, ghost s: nat)
    requires 0 < f == Join(h, w) && 0 <= h < 0x10_0000
    ensures 0 < ix0 < 0x20_0000 && m + s == 0 && s <= 52
    ensures Join(ix0, ix1) == Shl(f, s)
    ensures ix0 < 0x10_0000 || ix1 % 0x20_0000 == 0
  {
    ix0, ix1, m, s := h, w, 0, 0;
    while ix0 == 0
      invariant 0 <= ix0 < 0x20_0000 && m + s == 0 && s <= 52
      invariant Join(ix0, ix1) == Shl(f, s)
      invariant ix0 < 0x10_0000 || ix1 % 0x20_0000 == 0
      decreases 0x20_0000_0000_0000 - Shl(f, s)
    {
      ShlShl(f, s, 21);
      ShlConstants(Shl(f, s));
      WordStep(ix1);
      SubnormalScale(f, s + 21);
      m := m - 21;
      ix0 := ix1 / 0x800;
      ix1 := Wrap(ix1 * 0x20_0000);
      s := s + 21;
    }
  }

  lemma WordStep(w: U32)
    ensures Join(w / 0x800, Wrap(w * 0x20_0000)) == w * 0x20_0000
    ensures Wrap(w * 0x20_0000) % 0x20_0000 == 0
  {
    var a, b := w / 0x800, w % 0x800;
    assert w * 0x20_0000 == a * 0x1_0000_0000 + b * 0x20_0000;
    DivModUnique(w * 0x20_0000, 0x1_0000_0000, a, b * 0x20_0000);
    DivModUnique(b * 0x20_0000, 0x20_0000, b, 0);
  }

  // ---------------------------------------------------------------- the root, bit by bit

  /** x is the remainder n - q^2 scaled so that the next bit r = 2^(k-1) of the root is decided by 2q + r <= x. */
  ghost predicate Scaled(n: int, q: nat, x: int, k: nat)
  {
    Shl(x, k) == 2 * (n - SquareOf(q)) && 0 <= x < 4 * q + 2 * Shl(1, k)
  }

  lemma RootStep(n: int, q: nat, x: int, k: nat, t: int) returns (q': nat, x': int)
    requires Scaled(n, q, x, k + 1) && t == 2 * q + Shl(1, k)
    ensures Scaled(n, q', x', k)
    ensures if t <= x then q' == q + Shl(1, k) && x' == 2 * (x - t) else q' == q && x' == 2 * x
  {
    var r := Shl(1, k);
    if t <= x {
      q', x' := q + r, 2 * (x - t);
      DoubleThenShift(x - t, k);
      ShlSum(x - t, t, k + 1);
      SquareOfSum(q, r);
      assert Shl(t, k) == 2 * (q * r) + r * r by {
        ShlProduct(1, t, k);
        Distribute(r, q);
      }
    } else {
      q', x' := q, 2 * x;
      DoubleThenShift(x, k);
    }
  }

  lemma Distribute(r: int, q: int)
    ensures r * (2 * q + r) == 2 * (q * r) + r * r
  {
  }

  lemma HighBit(k: nat)
    ensures Shl(1, k + 32) == Shl(1, k) * 0x1_0000_0000
  {
    ShlShl(1, k, 32);
    ShlConstants(Shl(1, k));
  }

  lemma HighRootStep(n: int, q: nat, x: int, k: nat, r: nat) returns (q': nat, x': int)
    requires Scaled(n, q, x, k + 33) && r == Shl(1, k)
    ensures Scaled(n, q', x', k + 32) && x < 4 * q + 4 * (r * 0x1_0000_0000)
    ensures var t := 2 * q + r * 0x1_0000_0000;
      if t <= x then q' == q + r * 0x1_0000_0000 && x' == 2 * (x - t) else q' == q && x' == 2 * x
  {
    HighBit(k);
    q', x' := RootStep(n, q, x, k + 32, 2 * q + r * 0x1_0000_0000);
  }

  lemma StartBits(x: nat)
    requires x < 0x80_0000_0000_0000
    ensures Shl(1, 22) == 0x40_0000 && Shl(1, 32) == 0x1_0000_0000
    ensures Scaled(Shl(x, 53), 0, x, 54)
  {
    ShlConstants(1);
    assert Shl(1, 22) == 2 * Shl(1, 21) && Shl(1, 54) == 2 * Shl(1, 53);
    assert Shl(x, 54) == 2 * Shl(x, 53);
  }

  /** The first loop: the 22 bits of the high word, where the trial value has an empty low word. */
  method HighBits(x0: I32, x1: U32) returns (q: I32, s0: I32, ix0: I32, ix1: U32, ghost root: nat, ghost rem: int)
    requires 0 <= x0 && Join(x0, x1) < 0x80_0000_0000_0000
    ensures 0 <= q < 0x40_0000 && s0 == 2 * q && 0 <= ix0
    ensures root == q * 0x1_0000_0000 && rem == Join(ix0, ix1)
    ensures Scaled(Shl(Join(x0, x1), 53), root, rem, 32)
  {
    ix0, ix1, q, s0 := x0, x1, 0, 0;
    var r: U32 := 0x20_0000;
    root, rem := 0, Join(x0, x1);
    ghost var n, k: nat := Shl(rem, 53), 22;
    StartBits(rem);
    while r != 0
      invariant 0 <= k <= 22 && r == Shl(1, k) / 2 && Shl(1, k) <= 0x40_0000
      invariant 0 <= q <= 0x40_0000 - Shl(1, k) && s0 == 2 * q && 0 <= ix0
      invariant root == q * 0x1_0000_0000 && rem == Join(ix0, ix1)
      invariant Scaled(n, root, rem, k + 32)
      decreases k
    {
      k := k - 1;
      root, rem := HighRootStep(n, root, rem, k, r);
      q, s0, ix0, ix1 := HighStep(q, s0, ix0, ix1, r);
      r := r / 2;
    }
    assert k == 0;
  }

  method HighStep(q: I32, s0: I32, ix0: I32, ix1: U32, r: U32) returns (q': I32, s0': I32, h: I32, w: U32)
    requires 0 <= q && 0 < r && q + 2 * r <= 0x40_0000 && s0 == 2 * q && 0 <= ix0 < 0x400_0000
    ensures s0' == 2 * q' && 0 <= h
    ensures var x, t := Join(ix0, ix1), 2 * (q * 0x1_0000_0000) + r * 0x1_0000_0000;
      if t <= x then q' == q + r && Join(h, w) == 2 * (x - t)
      else q' == q && Join(h, w) == 2 * x
  {
    q', s0', h, w := q, s0, ix0, ix1;
    var t: I32 := s0 + r;
    if t <= h {
      s0' := t + r;
      h := h - t;
      q' := q + r;
    }
    h, w := Double2(h, w);
  }

  /** The second loop: the 32 bits of the low word, with a two-word trial value and borrow. */
  method LowBits(ghost n: int, q: I32, s: I32, x0: I32, x1: U32, ghost root0: nat, ghost rem0: int)
    returns (q1: U32, ix0: I32, ix1: U32, ghost root: nat, ghost rem: int)
    requires 0 <= q < 0x40_0000 && s == 2 * q && 0 <= x0
    requires root0 == q * 0x1_0000_0000 && rem0 == Join(x0, x1)
    requires Scaled(n, root0, rem0, 32)
    ensures 0 <= ix0 && root == Join(q, q1) && rem == Join(ix0, ix1)
    ensures Scaled(n, root, rem, 0)
  {
    var s0: I32, s1: U32 := s, 0;
    ix0, ix1, q1 := x0, x1, 0;
    var r: U32 := 0x8000_0000;
    ghost var k: nat := 32;
    root, rem := root0, rem0;
    assert Shl(1, 32) == 0x1_0000_0000 by { ShlConstants(1); }
    while r != 0
      invariant 0 <= k <= 32 && r == Shl(1, k) / 2 && Shl(1, k) <= 0x1_0000_0000
      invariant s1 + 2 * Shl(1, k) <= 0x1_0000_0000 || (k == 32 && s1 == 0)
      invariant 0 <= q1 <= 0x1_0000_0000 - Shl(1, k) && 0 <= ix0 && 0 <= s0
      invariant root == Join(q, q1) && rem == Join(ix0, ix1)
      invariant Join(s0, s1) == 2 * root
      invariant Scaled(n, root, rem, k)
      decreases k
    {
      k := k - 1;
      root, rem := RootStep(n, root, rem, k, 2 * root + r);
      q1, s0, s1, ix0, ix1 := LowStep(q1, s0, s1, ix0, ix1, r);
      r := r / 2;
    }
    assert k == 0;
  }

  /** Two-word comparison and subtraction with borrow. */
  method Subtract2(h: I32, w: U32, t: I32, t1: U32) returns (h': I32, w': U32)
    requires 0 <= t && 0 <= h && Join(t, t1) <= Join(h, w)
    ensures 0 <= h' <= h && Join(h', w') == Join(h, w) - (Join(t, t1))
  {
    h' := h - t;
    if w < t1 {
      h' := h' - 1;
    }
    w' := Wrap(w - t1);
  }

  method LowStep(q1: U32, s0: I32, s1: U32, ix0: I32, ix1: U32, r: U32) returns (q1': U32, s0': I32, s1': U32, h: I32, w: U32)
    requires 0 < r && q1 + r < 0x1_0000_0000 && 0 <= s0 < 0x80_0000 && 0 <= ix0 < 0x400_0000
    requires s1 + 4 * r <= 0x1_0000_0000 || (s1 == 0 && r == 0x8000_0000)
    ensures 0 <= h && 0 <= s0'
    ensures s1' + 2 * r <= 0x1_0000_0000
    ensures var x, t := Join(ix0, ix1), Join(s0, s1) + r;
      if t <= x then q1' == q1 + r && Join(s0', s1') == t + r && Join(h, w) == 2 * (x - t)
      else q1' == q1 && s0' == s0 && s1' == s1 && Join(h, w) == 2 * x
  {
    q1', s0', s1', h, w := q1, s0, s1, ix0, ix1;
    var t1: U32 := Wrap(s1 + r);
    var t: I32 := s0;
    assert t1 == s1 + r;
    if t < h || (t == h && t1 <= w) {
      s1' := Wrap(t1 + r);
      assert s1' == if r == 0x8000_0000 then 0 else t1 + r;
      if t1 >= 0x8000_0000 && s1' < 0x8000_0000 {
        s0' := s0 + 1;
      }
      assert Join(s0', s1') == Join(s0, t1) + r;
      h, w := Subtract2(h, w, t, t1);
      q1' := q1 + r;
    }
    h, w := Double2(h, w);
  }

  // ---------------------------------------------------------------- rounding and packing

  /** The significand the rounding mode asks for, from the 54-bit root and the inexact flag. */
  function Rounded(root: nat, inexact: bool, mode: Rounding): nat
  {
    if !inexact then root / 2
    else match mode
      case ToNearest => (root + 1) / 2
      case Upward => root / 2 + 1
      case _ => root / 2
  }

  /** How 1 - tiny and 1 + tiny compare with 1, which is how the code detects the mode. */
  predicate OneMinusTinyIsOne(mode: Rounding) { mode == ToNearest || mode == Upward }
  predicate OnePlusTinyExceedsOne(mode: Rounding) { mode == Upward }

  method RoundRoot(q: I32, q1: U32, inexact: bool, mode: Rounding) returns (p: I32, p1: U32)
    requires 0 <= q < 0x40_0000
    ensures 0 <= p && Join(p, p1) / 2 == Rounded(Join(q, q1), inexact, mode)
  {
    p, p1 := q, q1;
    if inexact {
      if OneMinusTinyIsOne(mode) {
        if p1 == 0xffff_ffff {
          p1 := 0;
          p := p + 1;
        } else if OnePlusTinyExceedsOne(mode) {
          if p1 == 0xffff_fffe {
            p := p + 1;
          }
          p1 := Wrap(p1 + 2);
        } else {
          p1 := p1 + p1 % 2;
        }
      }
    }
    Halves(q, q1, p, p1, inexact, mode);
  }

  /** Dropping the last bit of the adjusted root gives the rounded significand. */
  lemma Halves(q: int, q1: U32, p: int, p1: U32, inexact: bool, mode: Rounding)
    requires 0 <= q
    requires Join(p, p1) == Join(q, q1) +
      (if !inexact || mode == Downward || mode == TowardZero then 0
       else if q1 == 0xffff_ffff then 1
       else if mode == Upward then 2 else q1 % 2)
    ensures Join(p, p1) / 2 == Rounded(Join(q, q1), inexact, mode)
  {
    var k := q1 / 2;
    assert q1 == 2 * k + q1 % 2;
    assert Join(q, q1) == 2 * (q * 0x8000_0000 + k) + q1 % 2;
  }

  method Pack(p: I32, p1: U32, m: I32, ghost sig: nat) returns (z: Double)
    requires 0 <= p && -537 <= m <= 511
    requires sig == (Join(p, p1)) / 2 && 0x10_0000_0000_0000 <= sig <= 0x20_0000_0000_0000
    ensures z.Finite() && !z.Negative() && z.Mag() == Shl(sig, m + 1022)
  {
    var ix0: I32 := p / 2 + 0x3fe0_0000;
    var ix1: U32 := p1 / 2;
    if p % 2 == 1 {
      ix1 := ix1 + 0x8000_0000;
    }
    ix0 := ix0 + m * 0x10_0000;
    z := Double(ix0, ix1);
    Packed(z, p / 2, m, sig);
  }

  /** Adding the significand to the biased exponent carries into the exponent field when it should. */
  lemma Packed(z: Double, h: nat, m: int, sig: nat)
    requires -537 <= m <= 511 && 0x10_0000_0000_0000 <= sig <= 0x20_0000_0000_0000
    requires z.hi == h + 0x3fe0_0000 + m * 0x10_0000 && sig == Join(h, z.lo)
    ensures z.Finite() && !z.Negative() && z.Mag() == Shl(sig, m + 1022)
  {
    if h < 0x20_0000 {
      Fields(z, 0, m + 1023, h - 0x10_0000);
    } else {
      Fields(z, 0, m + 1024, 0);
      DoubleThenShift(0x10_0000_0000_0000, m + 1022);
    }
  }

  // ---------------------------------------------------------------- correctness

  /** The root of n to 54 bits, and the remainder that tells whether it is exact. */
  lemma IntegerRoot(n: int, q: nat, x: int)
    requires Scaled(n, q, x, 0)
    ensures SquareOf(q) <= n < SquareOf(q + 1)
    ensures x == 0 <==> n == SquareOf(q)
  {
  }

  /** The root of a 108-bit radicand whose low bits are clear has 54 bits, and rounding up cannot reach 2^54. */
  lemma RootRange(x: nat, q: nat)
    requires 0x20_0000_0000_0000 <= x <= 0x7F_FFFF_FFFF_FFFC && SquareOf(q) <= Shl(x, 53) < SquareOf(q + 1)
    ensures 0x20_0000_0000_0000 <= q <= 0x3F_FFFF_FFFF_FFFE
  {
    ShlConstants(x);
    RangeEnds(x * 0x20_0000_0000_0000, q, 0x20_0000_0000_0000, 0x3F_FFFF_FFFF_FFFF);
  }

  lemma RangeEnds(n: nat, q: nat, lo: nat, hi: nat)
    requires lo == 0x20_0000_0000_0000 && hi == 0x3F_FFFF_FFFF_FFFF
    requires lo * lo <= n < hi * hi && SquareOf(q) <= n < SquareOf(q + 1)
    ensures lo <= q < hi
  {
    SquareIsProduct(lo);
    SquareIsProduct(hi);
    if q < lo {
      SquareMono(q + 1, lo);
    } else if q >= hi {
      SquareMono(hi, q);
    }
  }

  lemma OddSquare(q: nat)
    ensures SquareOf(q) % 2 == q % 2
  {
    if q > 0 {
      OddSquare(q - 1);
    }
  }

  /** What rounding the root of n to a significand t/2 means for n itself. */
  ghost predicate RoundsTo(n: nat, t: nat, mode: Rounding)
    requires t > 1
  {
    match mode
    case ToNearest => SquareOf(t - 1) < n < SquareOf(t + 1) && (t == 0x20_0000_0000_0000 ==> SquareOf(t) <= n)
    case Upward => SquareOf(t - 2) < n <= SquareOf(t) && (t == 0x20_0000_0000_0000 ==> SquareOf(t - 1) < n)
    case _ => SquareOf(t) <= n < SquareOf(t + 2)
  }

  lemma RoundedExact(n: nat, q: nat, mode: Rounding)
    requires q > 1 && n == SquareOf(q)
    ensures RoundsTo(n, q, mode)
  {
    SquareMono(q - 2, q - 1);
    SquareMono(q - 1, q);
    SquareMono(q, q + 1);
    SquareMono(q + 1, q + 2);
  }

  lemma RoundedUp(n: nat, q: nat, mode: Rounding)
    requires q > 1 && SquareOf(q) < n < SquareOf(q + 1) && q + 1 > 0x20_0000_0000_0000
    ensures mode == ToNearest || mode == Upward ==> RoundsTo(n, q + 1, mode)
    ensures mode == Upward ==> RoundsTo(n, q + 2, mode)
  {
    SquareMono(q - 1, q);
    SquareMono(q + 1, q + 2);
  }

  lemma RoundedDown(n: nat, q: nat, mode: Rounding)
    requires q > 2 && SquareOf(q) < n < SquareOf(q + 1)
    ensures mode != Upward ==> RoundsTo(n, q, mode)
    ensures mode == Downward || mode == TowardZero ==> RoundsTo(n, q - 1, mode)
  {
    SquareMono(q - 1, q);
    SquareMono(q + 1, q + 2);
  }

  lemma RoundedValue(q: nat, inexact: bool, mode: Rounding, t: nat)
    requires t == 2 * Rounded(q, inexact, mode)
    ensures !inexact && q % 2 == 0 ==> t == q
    ensures inexact && mode == ToNearest ==> t == q || t == q + 1
    ensures inexact && mode == Upward ==> t == q + 1 || t == q + 2
    ensures inexact && (mode == Downward || mode == TowardZero) ==> t == q || t == q - 1
  {
  }

  lemma InexactRounds(n: nat, q: nat, mode: Rounding, t: nat)
    requires SquareOf(q) < n < SquareOf(q + 1) && 0x20_0000_0000_0000 <= q && t > 1
    requires mode == ToNearest ==> t == q || t == q + 1
    requires mode == Upward ==> t == q + 1 || t == q + 2
    requires mode == Downward || mode == TowardZero ==> t == q || t == q - 1
    ensures RoundsTo(n, t, mode)
  {
    if t > q {
      RoundedUp(n, q, mode);
    } else {
      RoundedDown(n, q, mode);
    }
  }

  /** The rounded significand; an even n is never the square of an odd root, so nothing is ever halfway. */
  lemma RoundedRoot(n: nat, q: nat, inexact: bool, mode: Rounding, t: nat)
    requires SquareOf(q) <= n < SquareOf(q + 1) && n % 2 == 0 && 0x20_0000_0000_0000 <= q
    requires (inexact <==> n != SquareOf(q)) && t == 2 * Rounded(q, inexact, mode)
    ensures t > 1 && RoundsTo(n, t, mode)
  {
    RoundedValue(q, inexact, mode, t);
    if !inexact {
      OddSquare(q);
      RoundedExact(n, q, mode);
    } else {
      InexactRounds(n, q, mode, t);
    }
  }

  lemma ShlSquare(c: nat, u: nat)
    ensures SquareOf(Shl(c, u)) == Shl(SquareOf(c), 2 * u)
  {
    var v := Shl(c, u);
    SquareIsProduct(c);
    SquareIsProduct(v);
    ShlProduct(c, v, u);
    assert c * v == v * c;
    ShlProduct(c, c, u);
    ShlShl(c * c, u, u);
  }

  lemma Above(v: nat, c: nat, u: nat, n: nat)
    requires v >= Shl(c, u)
    ensures SquareOf(c) > n ==> SquareOf(v) > Shl(n, 2 * u)
    ensures SquareOf(c) >= n ==> SquareOf(v) >= Shl(n, 2 * u)
  {
    SquareMono(Shl(c, u), v);
    ShlSquare(c, u);
    ShlOrder(n, SquareOf(c), 2 * u);
  }

  lemma Below(v: nat, c: nat, u: nat, n: nat)
    requires v <= Shl(c, u)
    ensures SquareOf(c) < n ==> SquareOf(v) < Shl(n, 2 * u)
    ensures SquareOf(c) <= n ==> SquareOf(v) <= Shl(n, 2 * u)
  {
    SquareMono(v, Shl(c, u));
    ShlSquare(c, u);
    ShlOrder(SquareOf(c), n, 2 * u);
  }

  lemma FourTimes(n: int, k: nat)
    ensures Shl(4 * n, k) == 4 * Shl(n, k)
  {
    ShlProduct(n, 4, k);
  }

  /** The doubles nearest to s * 2^(u+1), in units of 2^u; just under a power of two the spacing is halved. */
  lemma NextDoubles(d: Double, s: nat, u: nat)
    requires d.Finite() && s >= 0x10_0000_0000_0000
    ensures Shl(s, u + 1) == Shl(2 * s, u)
    ensures d.Mag() > Shl(s, u + 1) ==> d.Mag() >= Shl(2 * s + 2, u)
    ensures d.Mag() < Shl(s, u + 1) ==> d.Mag() <= Shl(if s == 0x10_0000_0000_0000 then 2 * s - 1 else 2 * s - 2, u)
  {
    var f, h := Shape(d);
    Spacing(f, h, s, u + 1);
    DoubleThenShift(s, u);
    DoubleThenShift(s + 1, u);
    DoubleThenShift(s - 1, u);
  }

  /** A double above the rounded root is far enough above for every rounding mode. */
  lemma AboveRoot(d: nat, z: nat, s: nat, n: nat, u: nat, mode: Rounding)
    requires z == Shl(2 * s, u) && d >= Shl(2 * s + 2, u) && s > 0 && RoundsTo(n, 2 * s, mode)
    ensures mode == ToNearest ==> SquareOf(d + z) > 4 * Shl(n, 2 * u)
    ensures mode == Downward || mode == TowardZero ==> SquareOf(d) > Shl(n, 2 * u)
  {
    if mode == ToNearest {
      ShlSum(2 * s + 2, 2 * s, u);
      FourTimes(n, 2 * u);
      SquareDouble(2 * s + 1);
      Above(d + z, 4 * s + 2, u, 4 * n);
    } else {
      Above(d, 2 * s + 2, u, n);
    }
  }

  /** A double below it is far enough below. */
  lemma BelowRoot(d: nat, z: nat, s: nat, c: nat, n: nat, u: nat, mode: Rounding)
    requires z == Shl(2 * s, u) && d <= Shl(c, u) && s > 0 && RoundsTo(n, 2 * s, mode)
    requires c == if s == 0x10_0000_0000_0000 then 2 * s - 1 else 2 * s - 2
    ensures mode == ToNearest ==> SquareOf(d + z) < 4 * Shl(n, 2 * u)
    ensures mode == Upward ==> SquareOf(d) < Shl(n, 2 * u)
  {
    if mode == ToNearest {
      MidpointBelow(n, s, c);
      ShlSum(c, 2 * s, u);
      FourTimes(n, 2 * u);
      Below(d + z, c + 2 * s, u, 4 * n);
    } else {
      Below(d, c, u, n);
    }
  }

  lemma MidpointBelow(n: nat, s: nat, c: nat)
    requires s > 0 && RoundsTo(n, 2 * s, ToNearest) && c == (if s == 0x10_0000_0000_0000 then 2 * s - 1 else 2 * s - 2)
    ensures SquareOf(c + 2 * s) < 4 * n
  {
    if s == 0x10_0000_0000_0000 {
      SquareMono(c + 2 * s, 2 * (2 * s));
      SquareDouble(2 * s);
    } else {
      SquareDouble(2 * s - 1);
    }
  }

  lemma DirectedSide(root: nat, zm: nat, n: nat, s: nat, u: nat, mode: Rounding)
    requires s > 1 && RoundsTo(n, 2 * s, mode) && root == Shl(n, 2 * u) && zm == Shl(s, u + 1)
    ensures mode == Upward ==> SquareOf(zm) >= root
    ensures mode == Downward || mode == TowardZero ==> SquareOf(zm) <= root
  {
    DoubleThenShift(s, u);
    if mode == Upward {
      Above(zm, 2 * s, u, n);
    } else if mode != ToNearest {
      Below(zm, 2 * s, u, n);
    }
  }

  lemma DoubleAbove(root: nat, zm: nat, n: nat, s: nat, u: nat, mode: Rounding, d: Double)
    requires s >= 0x10_0000_0000_0000 && RoundsTo(n, 2 * s, mode) && root == Shl(n, 2 * u) && zm == Shl(s, u + 1)
    requires d.Finite() && d.Mag() > zm
    ensures mode == ToNearest ==> SquareOf(d.Mag() + zm) > 4 * root
    ensures mode == Downward || mode == TowardZero ==> SquareOf(d.Mag()) > root
  {
    NextDoubles(d, s, u);
    AboveRoot(d.Mag(), zm, s, n, u, mode);
  }

  lemma DoubleBelow(root: nat, zm: nat, n: nat, s: nat, u: nat, mode: Rounding, d: Double)
    requires s >= 0x10_0000_0000_0000 && RoundsTo(n, 2 * s, mode) && root == Shl(n, 2 * u) && zm == Shl(s, u + 1)
    requires d.Finite() && d.Mag() < zm
    ensures mode == ToNearest ==> SquareOf(d.Mag() + zm) < 4 * root
    ensures mode == Upward ==> SquareOf(d.Mag()) < root
  {
    NextDoubles(d, s, u);
    BelowRoot(d.Mag(), zm, s, if s == 0x10_0000_0000_0000 then 2 * s - 1 else 2 * s - 2, n, u, mode);
  }

  /** z = s * 2^(u+1) is the correctly rounded root of n * 2^(2u). */
  lemma RootCorrect(x: Double, z: Double, n: nat, s: nat, u: nat, mode: Rounding)
    requires s >= 0x10_0000_0000_0000 && RoundsTo(n, 2 * s, mode)
    requires RootSquare(x) == Shl(n, 2 * u)
    requires z.Finite() && !z.Negative() && z.Mag() == Shl(s, u + 1)
    ensures CorrectlyRounded(x, z, mode)
  {
    var root, zm := RootSquare(x), z.Mag();
    forall d: Double | d.Finite() && d.Mag() > zm
      ensures mode == ToNearest ==> SquareOf(d.Mag() + zm) > 4 * root
      ensures mode == Downward || mode == TowardZero ==> SquareOf(d.Mag()) > root
    {
      DoubleAbove(root, zm, n, s, u, mode, d);
    }
    forall d: Double | d.Finite() && d.Mag() < zm
      ensures mode == ToNearest ==> SquareOf(d.Mag() + zm) < 4 * root
      ensures mode == Upward ==> SquareOf(d.Mag()) < root
    {
      DoubleBelow(root, zm, n, s, u, mode, d);
    }
    DirectedSide(root, zm, n, s, u, mode);
  }

  // ---------------------------------------------------------------- sqrt

  /** The scaled radicand: halving the exponent halves the shift. */
  lemma RadicandScale(x: Double, sig: nat, e: int, sig2: nat, m: int)
    requires -1074 <= e && Shl(x.Mag(), 52) == Shl(sig, e + 1074)
    requires (e == 2 * m && sig2 == sig) || (e == 2 * m + 1 && sig2 == 2 * sig)
    ensures -537 <= m && RootSquare(x) == Shl(Shl(2 * sig2, 53), 2 * (m + 1021))
  {
    assert Shl(RootSquare(x), 52) == Shl(sig, e + 2148) by {
      ShlShl(sig, e + 1074, 1074);
      ShlShl(x.Mag(), 52, 1074);
      ShlShl(x.Mag(), 1074, 52);
    }
    assert Shl(sig, e + 2148) == Shl(sig2, 2 * m + 2148) by {
      DoubleThenShift(sig, 2 * m + 2148);
    }
    ShiftApart(sig2, 2 * (m + 1021));
    ShlOrder(RootSquare(x), Shl(Shl(2 * sig2, 53), 2 * (m + 1021)), 52);
  }

  lemma ShiftApart(x: nat, k: nat)
    ensures Shl(x, k + 106) == Shl(Shl(Shl(2 * x, 53), k), 52)
  {
    DoubleThenShift(x, 53);
    ShlShl(x, 54, k + 52);
    ShlShl(Shl(2 * x, 53), k, 52);
  }

  method Sqrt(x: Double, mode: Rounding) returns (z: Double)
    ensures x.NaN() ==> z.NaN()
    ensures x.Infinite() ==> if x.Negative() then z.NaN() else z == x
    ensures x.Finite() && x.Mag() == 0 ==> z == x
    ensures x.Finite() && x.Mag() > 0 && x.Negative() ==> z.NaN()
    ensures x.Finite() && x.Mag() > 0 && !x.Negative() ==> CorrectlyRounded(x, z, mode)
  {
    var ix0: I32, ix1: U32 := AsInt(x.hi), x.lo;
    if x.hi / 0x10_0000 % 0x800 == 0x7ff {
      // x * x + x
      assert !x.Finite();
      return if x.Infinite() && !x.Negative() then x else QUIET_NAN;
    }
    ZeroWords(x);
    if ix0 <= 0 {
      if x.hi % 0x8000_0000 == 0 && ix1 == 0 {
        return x;
      } else if ix0 < 0 {
        // (x - x) / (x - x)
        return QUIET_NAN;
      }
    }
    z := PositiveRoot(x, mode);
  }

  method PositiveRoot(x: Double, mode: Rounding) returns (z: Double)
    requires x.Finite() && !x.Negative() && x.Mag() > 0
    ensures CorrectlyRounded(x, z, mode)
  {
    var ix0, ix1, m := Normalize(x);
    ghost var sig: nat, e: int := Join(ix0, ix1), m;
    if m % 2 == 1 {
      ix0, ix1 := Double2(ix0, ix1);
    }
    m := m / 2;
    RadicandScale(x, sig, e, Join(ix0, ix1), m);
    ix0, ix1 := Double2(ix0, ix1);
    z := RootAndPack(x, ix0, ix1, m, mode);
  }

  method RootAndPack(ghost x: Double, x0: I32, x1: U32, m: I32, mode: Rounding) returns (z: Double)
    requires 0 <= x0 && -537 <= m <= 511
    requires 0x20_0000_0000_0000 <= Join(x0, x1) <= 0x7F_FFFF_FFFF_FFFC
    requires RootSquare(x) == Shl(Shl(Join(x0, x1), 53), 2 * (m + 1021))
    ensures CorrectlyRounded(x, z, mode)
  {
    var q, q1, inexact := RootBits(x0, x1);
    ghost var n, s := RoundedSignificand(Join(x0, x1), Join(q, q1), inexact, mode);
    q, q1 := RoundRoot(q, q1, inexact, mode);
    z := Pack(q, q1, m, s);
    RootCorrect(x, z, n, s, m + 1021, mode);
  }

  lemma RoundedSignificand(x: nat, root: nat, inexact: bool, mode: Rounding) returns (n: nat, s: nat)
    requires 0x20_0000_0000_0000 <= root <= 0x3F_FFFF_FFFF_FFFE
    requires SquareOf(root) <= Shl(x, 53) < SquareOf(root + 1) && (inexact <==> Shl(x, 53) != SquareOf(root))
    ensures n == Shl(x, 53) && s == Rounded(root, inexact, mode)
    ensures 0x10_0000_0000_0000 <= s <= 0x20_0000_0000_0000 && RoundsTo(n, 2 * s, mode)
  {
    n, s := Shl(x, 53), Rounded(root, inexact, mode);
    ShiftedIsEven(x, 53, n);
    SignificandRange(root, inexact, mode, s);
    RoundedRoot(n, root, inexact, mode, 2 * s);
  }

  lemma ShiftedIsEven(x: nat, k: nat, n: nat)
    requires k > 0 && n == Shl(x, k)
    ensures n % 2 == 0
  {
  }

  lemma SignificandRange(root: nat, inexact: bool, mode: Rounding, s: nat)
    requires 0x20_0000_0000_0000 <= root <= 0x3F_FFFF_FFFF_FFFE && s == Rounded(root, inexact, mode)
    ensures 0x10_0000_0000_0000 <= s <= 0x20_0000_0000_0000
  {
  }

  /** Both loops: the 54-bit integer root of the scaled radicand, and whether anything is left over. */
  method RootBits(x0: I32, x1: U32) returns (q: I32, q1: U32, inexact: bool)
    requires 0 <= x0 && 0x20_0000_0000_0000 <= Join(x0, x1) <= 0x7F_FFFF_FFFF_FFFC
    ensures 0 <= q < 0x40_0000 && 0x20_0000_0000_0000 <= Join(q, q1) <= 0x3F_FFFF_FFFF_FFFE
    ensures var n, root := Shl(Join(x0, x1), 53), Join(q, q1);
      SquareOf(root) <= n < SquareOf(root + 1) && (inexact <==> n != SquareOf(root))
  {
    ghost var n := Shl(Join(x0, x1), 53);
    var s0, ix0, ix1;
    ghost var root, rem;
    q, s0, ix0, ix1, root, rem := HighBits(x0, x1);
    q1, ix0, ix1, root, rem := LowBits(n, q, s0, ix0, ix1, root, rem);
    inexact := ix0 != 0 || ix1 != 0;
    IntegerRoot(n, root, rem);
    RootRange(Join(x0, x1), root);
  }

  /** The rounded root is monotone in its argument; for equal arguments this makes the rounded root unique. */
  lemma RootMonotone(x: Double, y: Double, z: Double, w: Double, mode: Rounding)
    requires x.Mag() <= y.Mag()
    requires CorrectlyRounded(x, z, mode) && CorrectlyRounded(y, w, mode)
    ensures z.Mag() <= w.Mag()
  {
    ShlOrder(y.Mag(), x.Mag(), 1074);
    assert w.Mag() + z.Mag() == z.Mag() + w.Mag();
  }

  /** A perfect square within range has its exact root as result in every mode. */
  lemma ExactRoot(x: Double, z: Double, r: Double, mode: Rounding)
    requires r.Finite() && SquareOf(r.Mag()) == RootSquare(x) && x.Mag() > 0
    requires CorrectlyRounded(x, z, mode)
    ensures z.Mag() == r.Mag()
  {
    if r.Mag() < z.Mag() {
      SquareMono(2 * r.Mag(), r.Mag() + z.Mag());
      SquareDouble(r.Mag());
      SquareMono(r.Mag(), z.Mag());
    } else if z.Mag() < r.Mag() {
      SquareMono(r.Mag() + z.Mag(), 2 * r.Mag());
      SquareDouble(r.Mag());
      SquareMono(z.Mag(), r.Mag());
    }
  }
}

/** Binary64 values as two 32-bit words; magnitudes are exact integers in units of 2^-1074. */
module Ieee {
  import opened CTypes
  import opened Shifts

  /** hi and lo are the __HI and __LO words of a double, read as unsigned words. */
  datatype Double = Double(hi: U32, lo: U32) {
    predicate Negative() { hi >= 0x8000_0000 }
    function Exponent(): nat { hi / 0x10_0000 % 0x800 }
    function Fraction(): nat { Join(hi % 0x10_0000, lo) }
    predicate Finite() { Exponent() < 0x7ff }
    predicate NaN() { Exponent() == 0x7ff && Fraction() != 0 }
    predicate Infinite() { Exponent() == 0x7ff && Fraction() == 0 }

    /** |x| in units of 2^-1074. */
    function Mag(): nat
    {
      if Exponent() == 0 then Fraction() else Shl(0x10_0000_0000_0000 + Fraction(), Exponent() - 1)
    }
  }

  /** The result of the invalid operations; payload and sign of a NaN are not modelled. */
  const QUIET_NAN := Double(0x7ff8_0000, 0)

  /** A word read as a C int. */
  function AsInt(w: U32): I32 { if w < 0x8000_0000 then w else w - 0x1_0000_0000 }
  /** The value of a high and a low word together. */
  function Join(h: int, w: int): int { h * 0x1_0000_0000 + w }

  /** A mathematical integer stored in an unsigned word. */
  function Wrap(x: int): U32 { x % 0x1_0000_0000 }

  /** The sign, exponent and fraction fields of the high word. */
  lemma Fields(x: Double, s: int, e: int, f: int)
    requires x.hi == s * 0x8000_0000 + e * 0x10_0000 + f && 0 <= e < 0x800 && 0 <= f < 0x10_0000
    ensures 0 <= s <= 1 && x.Exponent() == e && x.Fraction() == Join(f, x.lo) && x.Negative() == (s == 1)
    ensures x.hi / 0x10_0000 == s * 0x800 + e && x.hi % 0x8000_0000 == e * 0x10_0000 + f
  {
    DivModUnique(x.hi, 0x10_0000, s * 0x800 + e, f);
    DivModUnique(s * 0x800 + e, 0x800, s, e);
    DivModUnique(x.hi, 0x8000_0000, s, e * 0x10_0000 + f);
  }

  lemma Split(x: Double) returns (s: int, e: int, f: int)
    ensures x.hi == s * 0x8000_0000 + e * 0x10_0000 + f && 0 <= e < 0x800 && 0 <= f < 0x10_0000
    ensures 0 <= s <= 1 && x.Exponent() == e && x.Fraction() == Join(f, x.lo) && x.Negative() == (s == 1)
    ensures x.hi / 0x10_0000 == s * 0x800 + e && x.hi % 0x8000_0000 == e * 0x10_0000 + f
  {
    f := x.hi % 0x10_0000;
    var h := x.hi / 0x10_0000;
    assert x.hi == h * 0x10_0000 + f;
    e, s := h % 0x800, h / 0x800;
    assert h == s * 0x800 + e;
    Fields(x, s, e, f);
  }

  /** Exactly the two zeros have no magnitude. */
  lemma ZeroWords(x: Double)
    requires x.Finite()
    ensures x.Mag() == 0 <==> x.hi % 0x8000_0000 == 0 && x.lo == 0
  {
    var s, e, f := Split(x);
  }

  /** The exponent and fraction fields as one integer: the encoding of |x|. */
  function Code(x: Double): nat { Join(x.hi % 0x8000_0000, x.lo) }

  lemma CodeFields(x: Double)
    ensures x.Exponent() < 0x800 && x.Fraction() < 0x10_0000_0000_0000
    ensures Code(x) == x.Exponent() * 0x10_0000_0000_0000 + x.Fraction() && Code(x) < 0x8000_0000_0000_0000
  {
    var s, e, f := Split(x);
  }

  /** The magnitude of 1.0 is 2^1074 units, and that of the smallest subnormal one. */
  lemma Units()
    ensures Double(0x3ff0_0000, 0).Mag() == Shl(1, 1074) && Double(0, 1).Mag() == 1
  {
    var one, tiny := Double(0x3ff0_0000, 0), Double(0, 1);
    Fields(one, 0, 0x3ff, 0);
    Fields(tiny, 0, 0, 0);
    ShlConstants(1);
    var k := 1022;
    ShlShl(1, 52, k);
  }

  /** f * 2^g with f < 2^53 is the shape of every magnitude. */
  lemma Shape(d: Double) returns (f: nat, g: nat)
    requires d.Finite()
    ensures d.Mag() == Shl(f, g) && f < 0x20_0000_0000_0000
  {
    if d.Exponent() == 0 {
      f, g := d.Fraction(), 0;
    } else {
      f, g := 0x10_0000_0000_0000 + d.Fraction(), d.Exponent() - 1;
    }
  }

  /** Around m * 2^g: a value f * 2^h with f < 2^53 is at least one step of 2^g (or, below 2^52 * 2^g, half a step) away. */
  lemma Spacing(f: nat, h: nat, m: nat, g: nat)
    requires g > 0 && f < 0x20_0000_0000_0000 && 0x10_0000_0000_0000 <= m
    ensures Shl(f, h) > Shl(m, g) ==> Shl(f, h) >= Shl(m + 1, g)
    ensures Shl(f, h) < Shl(m, g) ==> Shl(f, h) <= Shl(2 * m - 1, g - 1)
    ensures Shl(f, h) < Shl(m, g) && m > 0x10_0000_0000_0000 ==> Shl(f, h) <= Shl(m - 1, g)
  {
    assert Shl(m, g) == Shl(2 * m, g - 1) && Shl(m - 1, g) == Shl(2 * m - 2, g - 1) by {
      ShlShl(m, 1, g - 1);
      ShlShl(m - 1, 1, g - 1);
      assert Shl(m, 1) == 2 * m && Shl(m - 1, 1) == 2 * m - 2;
    }
    ShlOrder(2 * m - 2, 2 * m - 1, g - 1);
    if g <= h {
      var k := Shl(f, h - g);
      ShlShl(f, h - g, g);
      ShlOrder(m, k, g);
      ShlOrder(k, m, g);
      ShlOrder(k, m + 1, g);
      ShlOrder(m - 1, k, g);
    } else {
      ShlGrows(f, h, g - 1);
      ShlOrder(2 * m, f, g - 1);
      ShlOrder(2 * m - 1, f, g - 1);
      ShlOrder(2 * m - 2, f, g - 1);
    }
  }

  /** Doubling a two-word number. */
  method Double2(h: I32, w: U32) returns (h': I32, w': U32)
    requires 0 <= h < 0x4000_0000 - 1
    ensures 0 <= h' && Join(h', w') == 2 * (Join(h, w))
  {
    h' := h + (h + w / 0x8000_0000);
    w' := Wrap(w + w);
  }
}

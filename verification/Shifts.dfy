/** Shifts as recursive doubling and halving, so that every fact about them is linear. */
module Shifts {

  /** x << k, without loss. */
  function Shl(x: int, k: nat): (r: int)
    ensures x >= 0 ==> r >= x
  {
    if k == 0 then x else 2 * Shl(x, k - 1)
  }

  /** x >> k, rounding down. */
  function Shr(x: int, k: nat): (r: int)
    ensures x >= 0 ==> 0 <= r <= x
  {
    if k == 0 then x else Shr(x, k - 1) / 2
  }

  /** The bitwise or of two unsigned words. */
  function Or(a: nat, b: nat): nat
  {
    if a == 0 && b == 0 then 0 else 2 * Or(a / 2, b / 2) + (if a % 2 == 1 || b % 2 == 1 then 1 else 0)
  }

  lemma {:induction false} ShlZero(k: nat)
    ensures Shl(0, k) == 0
  {
    if k > 0 {
      ShlZero(k - 1);
    }
  }

  lemma {:induction false} ShlShl(x: int, a: nat, b: nat)
    ensures Shl(Shl(x, a), b) == Shl(x, a + b)
  {
    if b > 0 {
      ShlShl(x, a, b - 1);
    }
  }

  lemma DoubleThenShift(x: int, k: nat)
    ensures Shl(2 * x, k) == Shl(x, k + 1)
  {
    ShlShl(x, 1, k);
    assert Shl(x, 1) == 2 * x;
  }

  lemma {:induction false} ShlSum(x: int, y: int, k: nat)
    ensures Shl(x + y, k) == Shl(x, k) + Shl(y, k)
  {
    if k > 0 {
      ShlSum(x, y, k - 1);
    }
  }

  lemma {:induction false} ShlOrder(x: int, y: int, k: nat)
    ensures x < y <==> Shl(x, k) < Shl(y, k)
    ensures x == y <==> Shl(x, k) == Shl(y, k)
  {
    if k > 0 {
      ShlOrder(x, y, k - 1);
    }
  }

  lemma {:induction false} ShlGrows(x: nat, a: nat, b: nat)
    requires a <= b
    ensures Shl(x, a) <= Shl(x, b)
  {
    if a < b {
      ShlGrows(x, a, b - 1);
    }
  }

  lemma {:induction false} ShlProduct(x: int, y: int, k: nat)
    ensures Shl(x, k) * y == Shl(x * y, k)
  {
    if k > 0 {
      ShlProduct(x, y, k - 1);
      assert 2 * Shl(x, k - 1) * y == 2 * (Shl(x, k - 1) * y);
    }
  }

  lemma Shl4(x: int)
    ensures Shl(x, 4) == 16 * x && Shl(x, 1) == 2 * x
  {
    assert Shl(x, 0) == x;
    assert Shl(x, 1) == 2 * Shl(x, 0);
    assert Shl(x, 2) == 2 * Shl(x, 1);
    assert Shl(x, 3) == 2 * Shl(x, 2);
  }

  lemma Shl16(x: int)
    ensures Shl(x, 8) == x * 0x100 && Shl(x, 11) == x * 0x800 && Shl(x, 16) == x * 0x1_0000
  {
    Shl4(x);
    ShlShl(x, 4, 4);
    Shl4(Shl(x, 4));
    ShlShl(x, 8, 4);
    Shl4(Shl(x, 8));
    assert Shl(x, 12) == 2 * Shl(x, 11);
    ShlShl(x, 12, 4);
    Shl4(Shl(x, 12));
  }

  /** The shift counts that are constants in the C sources. */
  lemma ShlConstants(x: int)
    ensures Shl(x, 8) == x * 0x100 && Shl(x, 11) == x * 0x800
    ensures Shl(x, 20) == x * 0x10_0000 && Shl(x, 21) == x * 0x20_0000
    ensures Shl(x, 31) == x * 0x8000_0000 && Shl(x, 32) == x * 0x1_0000_0000
    ensures Shl(x, 52) == x * 0x10_0000_0000_0000 && Shl(x, 53) == x * 0x20_0000_0000_0000
  {
    Shl16(x);
    ShlShl(x, 16, 4);
    Shl4(Shl(x, 16));
    ShlShl(x, 20, 1);
    Shl4(Shl(x, 20));
    ShlShl(x, 20, 11);
    Shl16(Shl(x, 20));
    ShlShl(x, 31, 1);
    Shl4(Shl(x, 31));
    ShlShl(x, 21, 31);
    ShlShl(x, 32, 16);
    Shl16(Shl(x, 32));
    ShlShl(x, 48, 4);
    Shl4(Shl(x, 48));
    ShlShl(x, 52, 1);
    Shl4(Shl(x, 52));
  }

  lemma {:induction false} ShrBounds(x: int, k: nat)
    ensures Shl(Shr(x, k), k) <= x < Shl(Shr(x, k) + 1, k)
  {
    if k > 0 {
      ShrBounds(x, k - 1);
      var q, h := Shr(x, k - 1), Shr(x, k);
      ShlShl(h, 1, k - 1);
      ShlShl(h + 1, 1, k - 1);
      assert Shl(h, 1) == 2 * h && Shl(h + 1, 1) == 2 * h + 2;
      ShlOrder(q, 2 * h, k - 1);
      ShlOrder(q + 1, 2 * h + 2, k - 1);
    }
  }

  lemma ShrUnique(x: int, k: nat, q: int)
    requires Shl(q, k) <= x < Shl(q + 1, k)
    ensures Shr(x, k) == q
  {
    ShrBounds(x, k);
    ShlOrder(q, Shr(x, k) + 1, k);
    ShlOrder(Shr(x, k), q + 1, k);
  }

  /** Or of disjoint bit fields is addition. */
  lemma {:induction false} OrDisjoint(c: nat, b: nat, k: nat)
    requires b < Shl(1, k)
    ensures Or(Shl(c, k), b) == Shl(c, k) + b
  {
    if k == 0 {
      OrZero(c);
    } else if Shl(c, k) != 0 || b != 0 {
      OrDisjoint(c, b / 2, k - 1);
    }
  }

  lemma {:induction false} OrZero(a: nat)
    ensures Or(a, 0) == a
  {
    if a != 0 {
      OrZero(a / 2);
    }
  }

  /** Or with a word whose low k bits are clear keeps the low k bits. */
  lemma {:induction false} OrLowBits(a: nat, r: nat, c: nat, k: nat) returns (a': nat)
    requires r < Shl(1, k)
    ensures Or(Shl(a, k) + r, Shl(c, k)) == Shl(a', k) + r
  {
    if k == 0 {
      a' := Or(a, c);
    } else if Shl(a, k) + r != 0 || Shl(c, k) != 0 {
      a' := OrLowBits(a, r / 2, c, k - 1);
    } else {
      a' := a;
    }
  }

  /** A field shifted by a then by b lies where one shifted by a + b does. */
  lemma ShlBetween(q: int, w: int, a: nat, b: nat)
    requires Shl(q, a) <= w < Shl(q + 1, a)
    ensures Shl(q, a + b) <= Shl(w, b) < Shl(q + 1, a + b)
  {
    ShlOrder(w, Shl(q, a), b);
    ShlOrder(w, Shl(q + 1, a), b);
    ShlShl(q, a, b);
    ShlShl(q + 1, a, b);
  }

  lemma LowWord(v: nat, q: int)
    requires q * 0x1_0000_0000 <= v < (q + 1) * 0x1_0000_0000
    ensures q * 0x1_0000_0000 + v % 0x1_0000_0000 == v
  {
    DivModUnique(v, 0x1_0000_0000, q, v - q * 0x1_0000_0000);
  }

  lemma FieldBound(q: int, w: nat, i: nat)
    requires i <= 32 && w < 0x1_0000_0000 && Shl(q, 32 - i) <= w
    ensures q < Shl(1, i)
  {
    ShlShl(1, i, 32 - i);
    ShlConstants(1);
    ShlOrder(q, Shl(1, i), 32 - i);
  }

  /** Shifting a 32-bit word left by i: the bits shifted out on the left are w >> (32 - i). */
  lemma ShiftWord(w: nat, i: nat)
    requires w < 0x1_0000_0000 && i <= 32
    ensures 0 <= Shr(w, 32 - i) < Shl(1, i)
    ensures Shr(w, 32 - i) * 0x1_0000_0000 + Shl(w, i) % 0x1_0000_0000 == Shl(w, i)
  {
    var q := Shr(w, 32 - i);
    ShrBounds(w, 32 - i);
    FieldBound(q, w, i);
    assert q * 0x1_0000_0000 <= Shl(w, i) < (q + 1) * 0x1_0000_0000 by {
      ShlBetween(q, w, 32 - i, i);
      ShlConstants(q);
      ShlConstants(q + 1);
    }
    LowWord(Shl(w, i), q);
  }

  lemma MulMono(a: int, b: int, c: nat)
    requires a <= b
    ensures a * c <= b * c
  {
  }

  /** Quotient and remainder are determined by q * d + r. */
  lemma DivModUnique(x: int, d: int, q: int, r: int)
    requires d > 0 && x == q * d + r && 0 <= r < d
    ensures x / d == q && x % d == r
  {
    var q', r' := x / d, x % d;
    assert x == d * q' + r';
    if q < q' {
      MulMono(q + 1, q', d);
    } else if q' < q {
      MulMono(q' + 1, q, d);
    }
  }

  /** Shifting a two-word number left, in two pieces. */
  lemma ShiftPair(h: int, w: nat, i: nat)
    requires i <= 32 && w < 0x1_0000_0000
    ensures (Shl(h, i) + Shr(w, 32 - i)) * 0x1_0000_0000 + Shl(w, i) % 0x1_0000_0000 == Shl(h * 0x1_0000_0000 + w, i)
  {
    ShlSum(h * 0x1_0000_0000, w, i);
    ShlProduct(h, 0x1_0000_0000, i);
    ShiftWord(w, i);
  }

  lemma {:induction false} ShrShr(x: int, a: nat, b: nat)
    ensures Shr(Shr(x, a), b) == Shr(x, a + b)
  {
    if b > 0 {
      ShrShr(x, a, b - 1);
    }
  }

  lemma {:induction false} OrCommutes(a: nat, b: nat)
    ensures Or(a, b) == Or(b, a)
  {
    if a != 0 || b != 0 {
      OrCommutes(a / 2, b / 2);
    }
  }

  lemma OrBit(a: nat, b: nat)
    requires b <= 1
    ensures a <= Or(a, b) <= a + b && (a % 2 == 0 ==> Or(a, b) == a + b)
  {
    if a != 0 || b != 0 {
      OrZero(a / 2);
      assert Or(a, b) == 2 * Or(a / 2, 0) + (if a % 2 == 1 || b == 1 then 1 else 0);
    }
  }

  /** A multiple of the divisor does not change the remainder. */
  lemma ModMultiple(v: int, d: int, k: int)
    requires d > 0
    ensures (v - k * d) % d == v % d
  {
    var q, r := v / d, v % d;
    assert v == d * q + r;
    assert v - k * d == (q - k) * d + r;
    DivModUnique(v - k * d, d, q - k, r);
  }

  /** The remainder of a by b, by repeated subtraction. */
  function Rem(a: nat, b: nat): (r: nat)
    requires b > 0
    ensures r < b
  {
    if a < b then a else Rem(a - b, b)
  }

  lemma {:induction false} RemIsMod(a: nat, b: nat)
    requires b > 0
    ensures Rem(a, b) == a % b
  {
    if a < b {
      DivModUnique(a, b, 0, a);
    } else {
      RemIsMod(a - b, b);
      ModMultiple(a, b, 1);
    }
  }

  /** Dropping a shifted copy of the divisor does not change the remainder. */
  lemma RemShlMultiple(v: nat, d: nat, n: nat)
    requires d > 0 && v >= Shl(d, n)
    ensures Rem(v - Shl(d, n), d) == Rem(v, d)
  {
    ShlProduct(1, d, n);
    ModMultiple(v, d, Shl(1, n));
    RemIsMod(v, d);
    RemIsMod(v - Shl(d, n), d);
  }

  lemma DoubleMod(u: nat, v: nat)
    requires v > 0
    ensures (2 * u) % (2 * v) == 2 * (u % v)
  {
    var q, r := u / v, u % v;
    assert u == v * q + r;
    assert 2 * u == q * (2 * v) + 2 * r;
    DivModUnique(2 * u, 2 * v, q, 2 * r);
  }

  /** Scaling dividend and divisor scales the remainder. */
  lemma {:induction false} ShlRem(a: nat, b: nat, k: nat)
    requires b > 0
    ensures Shl(b, k) > 0 && Rem(Shl(a, k), Shl(b, k)) == Shl(Rem(a, b), k)
  {
    if k > 0 {
      ShlRem(a, b, k - 1);
      DoubleMod(Shl(a, k - 1), Shl(b, k - 1));
      RemIsMod(Shl(a, k - 1), Shl(b, k - 1));
      RemIsMod(Shl(a, k), Shl(b, k));
    }
  }

  /** The low k bits of x. */
  lemma LowBitsOf(x: nat, k: nat) returns (c: nat)
    ensures x == Shl(Shr(x, k), k) + c && c < Shl(1, k)
  {
    ShrBounds(x, k);
    ShlSum(Shr(x, k), 1, k);
    c := x - Shl(Shr(x, k), k);
  }

  /** Shifting a two-word number right by n: the low n bits c of the high word move to the top of the low word. */
  lemma ShiftRightPair(h: nat, w: nat, n: nat) returns (c: nat)
    requires n <= 32 && w < 0x1_0000_0000
    ensures Shl(h, 32 - n) == Shr(h, n) * 0x1_0000_0000 + Shl(c, 32 - n) && 0 <= Shl(c, 32 - n) < 0x1_0000_0000
    ensures h == Shl(Shr(h, n), n) + c && c < Shl(1, n)
    ensures Shr(h * 0x1_0000_0000 + w, n) == Shl(h, 32 - n) + Shr(w, n)
  {
    c := LowBitsOf(h, n);
    SplitHigh(h, Shr(h, n), c, n);
    ShrUnique(h * 0x1_0000_0000 + w, n, Shl(h, 32 - n) + Shr(w, n)) by {
      PairBounds(h, w, Shr(w, n), n);
    }
  }

  lemma SplitHigh(h: nat, g: nat, c: nat, n: nat)
    requires n <= 32 && h == Shl(g, n) + c && c < Shl(1, n)
    ensures Shl(h, 32 - n) == g * 0x1_0000_0000 + Shl(c, 32 - n) && Shl(c, 32 - n) < 0x1_0000_0000
  {
    ShlSum(Shl(g, n), c, 32 - n);
    ShlShl(g, n, 32 - n);
    ShlConstants(g);
    ShlOrder(c, Shl(1, n), 32 - n);
    ShlShl(1, n, 32 - n);
    ShlConstants(1);
  }

  lemma PairBounds(h: nat, w: nat, l: nat, n: nat)
    requires n <= 32 && l == Shr(w, n)
    ensures Shl(Shl(h, 32 - n) + l, n) <= h * 0x1_0000_0000 + w < Shl(Shl(h, 32 - n) + l + 1, n)
  {
    assert Shl(Shl(h, 32 - n), n) == h * 0x1_0000_0000 by {
      ShlShl(h, 32 - n, n);
      ShlConstants(h);
    }
    ShrBounds(w, n);
    ShlSum(Shl(h, 32 - n), l, n);
    ShlSum(Shl(h, 32 - n), l + 1, n);
  }

  lemma LowFieldFits(h0: nat, low: nat, i: nat)
    requires i <= 20 && Shl(h0, i) < 0x20_0000 && low < Shl(1, i)
    ensures Shl(h0, i) + low < 0x20_0000
  {
    ShlShl(1, 21 - i, i);
    ShlConstants(1);
    ShlOrder(h0, Shl(1, 21 - i), i);
    ShlOrder(h0 + 1, Shl(1, 21 - i), i);
    ShlSum(h0, 1, i);
    ShlOrder(Shl(1, 21 - i), h0 + 1, i);
  }
}

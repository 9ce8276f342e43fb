/** The 64-bit division helpers of hxlib/comp_gcc_AI.c: one bit of the quotient per round, and the signed wrappers. */
module Division {
  import opened CTypes
  import opened Shifts

  /** After the bits from i upwards: q and r are quotient and remainder of that prefix of the dividend. */
  ghost predicate Divided(a: nat, b: nat, i: nat, q: nat, r: nat)
  {
    Shr(a, i) == q * b + r && r < b && r <= Shr(a, i)
  }

  lemma TopBits(a: U64, k: nat)
    requires k == 32
    ensures Shr(a, 2 * k) == 0
  {
    ShlShl(1, k, k);
    ShlConstants(1);
    ShlConstants(0x1_0000_0000);
    ShlZero(2 * k);
    ShrUnique(a, 2 * k, 0);
  }

  /** One round: the next bit enters the remainder, which never loses a bit on its left because it stays below a prefix
      of the dividend. */
  lemma Round(a: U64, b: nat, i: nat, q: nat, r: nat)
    requires Divided(a, b, i + 1, q, r) && i < 64
    ensures var r' := 2 * r + Shr(a, i) % 2;
      && r' < TWO_64 && r' <= Shr(a, i)
      && (if r' >= b then Divided(a, b, i, 2 * q + 1, r' - b) else Divided(a, b, i, 2 * q, r'))
  {
    ShrShr(a, i, 1);
    var p := Shr(a, i);
    assert p == 2 * Shr(a, i + 1) + p % 2;
    assert (2 * q + 1) * b == 2 * (q * b) + b && 2 * q * b == 2 * (q * b);
  }

  /** The next bit of the remainder, in 64 bits. */
  function NextRemainder(r: U64, bit: nat): U64
    requires bit <= 1
  {
    Or(2 * r % TWO_64, bit) % TWO_64
  }

  lemma NextRemainderIs(r: U64, bit: nat)
    requires bit <= 1 && 2 * r + bit < TWO_64
    ensures NextRemainder(r, bit) == 2 * r + bit
  {
    NoWrap(2 * r);
    OrBit(2 * r, bit);
    NoWrap(2 * r + bit);
  }

  lemma NoWrap(x: nat)
    requires x < TWO_64
    ensures x % TWO_64 == x
  {
  }

  lemma SetBit(q: nat, i: nat)
    ensures Or(Shl(q, i + 1), Shl(1, i)) == Shl(2 * q + 1, i) && Shl(q, i + 1) == Shl(2 * q, i)
  {
    ShlSum(q, q, i);
    OrDisjoint(q, Shl(1, i), i + 1);
    ShlSum(2 * q, 1, i);
  }

  /** __udivdi3. */
  method UDiv(a: U64, b: U64) returns (quotient: nat)
    requires b != 0
    ensures quotient == a / b
  {
    quotient := 0;
    var remainder: U64 := 0;
    ghost var q: nat := 0;
    TopBits(a, 32);
    ShlZero(64);
    var i := 63;
    while i >= 0
      invariant -1 <= i <= 63 && Divided(a, b, i + 1, q, remainder) && quotient == Shl(q, i + 1)
    {
      Round(a, b, i, q, remainder);
      NextRemainderIs(remainder, Shr(a, i) % 2);
      SetBit(q, i);
      remainder := NextRemainder(remainder, Shr(a, i) % 2);
      q := 2 * q;
      if remainder >= b {
        remainder := remainder - b;
        quotient := Or(quotient, Shl(1, i));
        q := q + 1;
      }
      i := i - 1;
    }
    DivModUnique(a, b, q, remainder);
  }

  /** __umoddi3. */
  method UMod(a: U64, b: U64) returns (remainder: U64)
    requires b != 0
    ensures remainder == a % b
  {
    remainder := 0;
    ghost var q: nat := 0;
    TopBits(a, 32);
    var i := 63;
    while i >= 0
      invariant -1 <= i <= 63 && Divided(a, b, i + 1, q, remainder)
    {
      Round(a, b, i, q, remainder);
      NextRemainderIs(remainder, Shr(a, i) % 2);
      remainder := NextRemainder(remainder, Shr(a, i) % 2);
      q := 2 * q;
      if remainder >= b {
        remainder := remainder - b;
        q := q + 1;
      }
      i := i - 1;
    }
    DivModUnique(a, b, q, remainder);
  }

  // ---------------------------------------------------------------- signed division

  /** Reading 64 bits as a signed number. */
  function Signed(w: U64): I64 { if w < 0x8000_0000_0000_0000 then w else w - TWO_64 }

  function Magnitude(a: I64): U64
  {
    var x: int := a;
    if x < 0 then -x else x
  }

  /** The quotient of C11 section 6.5.5: truncated toward zero. */
  function Quot(a: int, b: int): int
    requires b != 0
  {
    if (a < 0) == (b < 0) then Abs(a) / Abs(b) else -(Abs(a) / Abs(b))
  }

  function Rem(a: int, b: int): int
    requires b != 0
  {
    if a < 0 then -(Abs(a) % Abs(b)) else Abs(a) % Abs(b)
  }

  function Abs(a: int): nat { if a < 0 then -a else a }

  /** Quotient and remainder belong together, and the remainder has the sign of the dividend. */
  lemma QuotRem(a: int, b: int)
    requires b != 0
    ensures a == Quot(a, b) * b + Rem(a, b) && Abs(Rem(a, b)) < Abs(b)
    ensures Rem(a, b) == 0 || (Rem(a, b) < 0 <==> a < 0)
  {
    var m, n := Abs(a), Abs(b);
    var q := m / n;
    assert m == q * n + m % n;
  }

  lemma QuotBound(m: nat, n: nat)
    requires n > 0
    ensures m / n <= m && (n >= 2 ==> 2 * (m / n) <= m)
  {
    var q := m / n;
    assert m == q * n + m % n;
    MulMono(1, n, q);
    if n >= 2 {
      MulMono(2, n, q);
    }
  }

  /** sign * q, as 64-bit words. */
  function TimesSign(negative: bool, q: U64): I64 { Signed(if negative then (TWO_64 - q) % TWO_64 else q) }

  lemma TimesSignIs(negative: bool, q: U64)
    requires q <= 0x8000_0000_0000_0000
    ensures var exact: int := if negative then 0 - (q as int) else q;
      TimesSign(negative, q) == exact <==> !(q == 0x8000_0000_0000_0000 && !negative)
  {
  }

  /** __divdi3: the truncated quotient, except for the one that does not fit. */
  method Div(a: I64, b: I64) returns (r: I64)
    requires b != 0
    ensures r == Quot(a, b) <==> !(a == -0x8000_0000_0000_0000 && b == -1)
  {
    var negative := (a < 0) != (b < 0);
    var q := UDiv(Magnitude(a), Magnitude(b));
    r := TimesSign(negative, q);
    OverflowOnly(a, b, q);
    TimesSignIs(negative, q);
  }

  lemma OverflowOnly(a: I64, b: I64, q: nat)
    requires b != 0 && q == Magnitude(a) / Magnitude(b)
    ensures q <= 0x8000_0000_0000_0000 && Quot(a, b) == if (a < 0) != (b < 0) then 0 - (q as int) else q
    ensures q == 0x8000_0000_0000_0000 && (a < 0) == (b < 0) <==> a == -0x8000_0000_0000_0000 && b == -1
  {
    QuotBound(Magnitude(a), Magnitude(b));
  }

  /** __moddi3: the remainder with the sign of the dividend, always. */
  method Mod(a: I64, b: I64) returns (r: I64)
    requires b != 0
    ensures r == Rem(a, b)
  {
    var m := UMod(Magnitude(a), Magnitude(b));
    var result := Signed(m);
    r := if a < 0 then -result else result;
  }
}

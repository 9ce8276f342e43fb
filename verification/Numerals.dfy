/** strtol of hxlib/string.c and itoa of hxlib/atox.c. */
module Numerals {
  import opened CTypes
  import opened Options
  import Shifts

  const SPACE: Char := 32
  const PLUS: Char := 43
  const MINUS: Char := 45
  const ZERO: Char := 48

  /** The value of a digit or letter; 99 for every other character. */
  function DigitOf(ch: Char): nat
  {
    var x: int := ch;
    if 48 <= x <= 57 then x - 48 else if 65 <= x <= 90 then x - 55 else if 97 <= x <= 122 then x - 87 else 99
  }

  function DigitChar(d: nat): (ch: Char)
    requires d < 36
    ensures DigitOf(ch) == d
  {
    if d < 10 then d + 48 else d + 87
  }

  predicate IsX(ch: Char) { ch == 120 || ch == 88 }

  // ---------------------------------------------------------------- what a string denotes

  /** A string in memory, up to and including its terminator. */
  predicate Terminated(s: seq<Char>) { s != [] && s[|s| - 1] == 0 }

  function SkipSpaces(s: seq<Char>, i: nat): (r: nat)
    requires Terminated(s) && i < |s|
    ensures i <= r < |s|
    decreases |s| - i
  {
    if s[i] == SPACE then SkipSpaces(s, i + 1) else i
  }

  function DigitsEnd(s: seq<Char>, i: nat, base: nat): (r: nat)
    requires Terminated(s) && i < |s| && base <= 36
    ensures i <= r < |s|
    decreases |s| - i
  {
    if DigitOf(s[i]) >= base then i else DigitsEnd(s, i + 1, base)
  }

  /** The number that the digits from i up to j denote. */
  function Value(s: seq<Char>, i: nat, j: nat, base: nat): nat
    requires i <= j <= |s|
    decreases j - i
  {
    if i == j then 0 else Value(s, i, j - 1, base) * base + DigitOf(s[j - 1])
  }

  /** Where the digits stand, and how they are to be read. */
  datatype Layout = Layout(negative: bool, base: nat, first: nat, end: nat)

  predicate GoodBase(base: int) { base == 0 || 2 <= base <= 36 }

  function Parse(s: seq<Char>, base: int): Layout
    requires Terminated(s) && GoodBase(base)
  {
    var a := SkipSpaces(s, 0);
    var signed := s[a] == MINUS || s[a] == PLUS;
    var b := if signed then a + 1 else a;
    var hex := (base == 0 || base == 16) && s[b] == ZERO && IsX(s[b + 1]);
    var base' := if hex then 16 else if base != 0 then base else if s[b] == ZERO then 8 else 10;
    var first := if hex then b + 2 else b;
    Layout(s[a] == MINUS, base', first, DigitsEnd(s, first, base'))
  }

  function Clamp(x: int): I32
  {
    if x > 0x7fff_ffff then 0x7fff_ffff else if x < -0x8000_0000 then -0x8000_0000 else x
  }

  /** The exact value, clamped, and where it ends: at the start of the string if there was no digit. */
  function Strtol(s: seq<Char>, base: int): (I32, nat)
    requires Terminated(s) && GoodBase(base)
  {
    var l := Parse(s, base);
    var v: int := Value(s, l.first, l.end, l.base);
    (Clamp(if l.negative then -v else v), if l.end > l.first then l.end else 0)
  }

  // ---------------------------------------------------------------- the loop with its overflow test

  /** The test made before a digit is added: it says exactly that the new value exceeds the limit. */
  lemma OverflowTest(ret: nat, digit: nat, base: nat, limit: nat)
    requires base > 0 && digit < base
    ensures ret > limit / base || (ret == limit / base && digit > limit % base) <==> ret * base + digit > limit
  {
    var q, r := limit / base, limit % base;
    assert limit == q * base + r;
    if ret > q {
      Shifts.MulMono(q + 1, ret, base);
    } else if ret < q {
      Shifts.MulMono(ret + 1, q, base);
    }
  }

  lemma {:induction false} ValueGrows(s: seq<Char>, i: nat, j: nat, k: nat, base: nat)
    requires i <= j <= k <= |s| && base > 0
    ensures Value(s, i, j, base) <= Value(s, i, k, base)
    decreases k
  {
    if j < k {
      ValueGrows(s, i, j, k - 1, base);
      Shifts.MulMono(1, base, Value(s, i, k - 1, base));
    }
  }

  /** Where the loop stands at character i: flag is negative once the limit has been exceeded, and positive after a digit. */
  ghost predicate Reading(s: seq<Char>, first: nat, i: nat, base: nat, limit: nat, ret: nat, flag: int)
  {
    && first <= i < |s|
    && (flag < 0 <==> Value(s, first, i, base) > limit)
    && (flag >= 0 ==> ret == Value(s, first, i, base))
    && (flag == 0 <==> i == first)
  }

  /** One digit. */
  method AddDigit(ghost s: seq<Char>, ghost first: nat, ghost i: nat, base: nat, ghost limit: nat, overflow: nat,
                  remainder: nat, ret: U32, flag: int, digit: nat)
    returns (ret': U32, flag': int)
    requires Reading(s, first, i, base, limit, ret, flag) && digit == DigitOf(s[i]) < base && i + 1 < |s|
    requires overflow == limit / base && remainder == limit % base && limit <= 0x8000_0000
    ensures Reading(s, first, i + 1, base, limit, ret', flag')
  {
    ret' := ret;
    OverflowTest(Value(s, first, i, base), digit, base, limit);
    ValueGrows(s, first, i, i + 1, base);
    assert Value(s, first, i + 1, base) == Value(s, first, i, base) * base + digit;
    if flag < 0 || ret > overflow || (ret == overflow && digit > remainder) {
      flag' := -1;
    } else {
      flag' := 1;
      ret' := ret * base + digit;
    }
  }

  method Accumulate(s: seq<Char>, first: nat, base: nat, limit: nat) returns (ret: U32, flag: int, i: nat)
    requires Terminated(s) && first < |s| && 2 <= base <= 36 && limit <= 0x8000_0000
    ensures i == DigitsEnd(s, first, base) && Reading(s, first, i, base, limit, ret, flag)
  {
    var overflow, remainder := limit / base, limit % base;
    ret, flag, i := 0, 0, first;
    while DigitOf(s[i]) < base
      invariant first <= i < |s| && DigitsEnd(s, i, base) == DigitsEnd(s, first, base)
      invariant Reading(s, first, i, base, limit, ret, flag)
      decreases |s| - i
    {
      ret, flag := AddDigit(s, first, i, base, limit, overflow, remainder, ret, flag, DigitOf(s[i]));
      i := i + 1;
    }
  }

  /** The spaces, the sign and the prefix; the result is what stands behind them. */
  method Prefix(s: seq<Char>, base: int) returns (negative: bool, base': nat, first: nat)
    requires Terminated(s) && GoodBase(base)
    ensures var l := Parse(s, base); negative == l.negative && base' == l.base && first == l.first
    ensures 2 <= base' <= 36 && first < |s|
  {
    var p := 0;
    while s[p] == SPACE
      invariant p < |s| && SkipSpaces(s, p) == SkipSpaces(s, 0)
      decreases |s| - p
    {
      p := p + 1;
    }
    negative := s[p] == MINUS;
    if s[p] == MINUS || s[p] == PLUS {
      p := p + 1;
    }
    if (base == 0 || base == 16) && s[p] == ZERO && IsX(s[p + 1]) {
      return negative, 16, p + 2;
    }
    return negative, if base != 0 then base else if s[p] == ZERO then 8 else 10, p;
  }

  /** strtol: the exact value of the digits, clamped to the range of a 32-bit long, and the index behind them. */
  method StringToLong(s: seq<Char>, base: int) returns (ret: I32, end: nat)
    requires Terminated(s) && GoodBase(base)
    ensures (ret, end) == Strtol(s, base)
  {
    var negative, base', first := Prefix(s, base);
    var limit := if negative then 0x8000_0000 else 0x7fff_ffff;
    var value, flag, i := Accumulate(s, first, base', limit);
    if flag < 0 {
      ret := if negative then -0x8000_0000 else 0x7fff_ffff;
    } else if negative {
      var x: int := value;
      ret := Signed((0x1_0000_0000 - x) % 0x1_0000_0000);
    } else {
      ret := value;
    }
    end := if flag != 0 then i else 0;
  }

  function Signed(x: U32): I32 { if x < 0x8000_0000 then x else x - 0x1_0000_0000 }

  // ---------------------------------------------------------------- what strtol promises, by the digits

  /** The character is the digit d, in upper or in lower case. */
  predicate Denotes(ch: Char, d: nat)
  {
    var x: int := ch;
    (d < 10 && x == 48 + d) || (10 <= d < 36 && (x == 65 + (d - 10) || x == 97 + (d - 10)))
  }

  predicate IsDigit(ch: Char, radix: nat)
  {
    var x: int := ch;
    (48 <= x <= 57 && x - 48 < radix) || (65 <= x <= 90 && x - 55 < radix) || (97 <= x <= 122 && x - 87 < radix)
  }

  function NumberOf(digits: seq<nat>, radix: nat): nat
  {
    if digits == [] then 0
    else
      var n := |digits| - 1;
      NumberOf(digits[..n], radix) * radix + digits[n]
  }

  lemma DigitDenotes(ch: Char, d: nat)
    requires d < 36
    ensures Denotes(ch, d) <==> DigitOf(ch) == d
  {
  }

  lemma {:induction false} ValueIsNumber(s: seq<Char>, first: nat, digits: seq<nat>, radix: nat)
    requires first + |digits| <= |s| && radix <= 36
    requires forall k | 0 <= k < |digits| :: digits[k] < radix && Denotes(s[first + k], digits[k])
    ensures Value(s, first, first + |digits|, radix) == NumberOf(digits, radix)
    decreases |digits|
  {
    if digits != [] {
      var n := |digits| - 1;
      ValueIsNumber(s, first, digits[..n], radix);
      DigitDenotes(s[first + n], digits[n]);
    }
  }

  lemma {:induction false} SpacesSkipped(s: seq<Char>, i: nat, a: nat)
    requires Terminated(s) && i <= a < |s| && s[a] != 32 && forall k | i <= k < a :: s[k] == 32
    ensures SkipSpaces(s, i) == a
    decreases a - i
  {
    if i < a {
      SpacesSkipped(s, i + 1, a);
    }
  }

  /** Every string: spaces up to a, a sign or none up to b, the prefix of a hexadecimal number or none up to first, these
      digits of the radix, and then something else. The result is their number, clamped to 32 bits, and the index behind
      them; without a digit, 0 and the start of the string. */
  lemma StrtolReads(s: seq<Char>, base: int, a: nat, b: nat, first: nat, radix: nat, digits: seq<nat>)
    requires GoodBase(base) && Terminated(s) && a <= b <= first && first + |digits| < |s|
    requires forall i | 0 <= i < a :: s[i] == 32
    requires if b == a then s[a] != 32 && s[a] != 43 && s[a] != 45 else b == a + 1 && (s[a] == 43 || s[a] == 45)
    requires if (base == 0 || base == 16) && s[b] == 48 && (s[b + 1] == 120 || s[b + 1] == 88)
             then first == b + 2 && radix == 16
             else first == b && radix == if base != 0 then base else if s[b] == 48 then 8 else 10
    requires forall k | 0 <= k < |digits| :: digits[k] < radix && Denotes(s[first + k], digits[k])
    requires !IsDigit(s[first + |digits|], radix)
    ensures var number: int, (ret, end) := NumberOf(digits, radix), Strtol(s, base);
      && (digits == [] ==> ret == 0 && end == 0)
      && (digits != [] ==> end == first + |digits|)
      && (s[a] == 45 ==> ret == if number > 0x8000_0000 then -0x8000_0000 else 0 - number)
      && (s[a] != 45 ==> ret == if number > 0x7fff_ffff then 0x7fff_ffff else number)
  {
    var end := first + |digits|;
    SpacesSkipped(s, 0, a);
    forall k | first <= k < end
      ensures DigitOf(s[k]) < radix
    {
      DigitDenotes(s[first + (k - first)], digits[k - first]);
    }
    EndOfDigits(s, first, end, radix);
    ValueIsNumber(s, first, digits, radix);
  }

  /** A prefix 0x without a digit behind it reads as nothing at all, where C11 section 7.22.1.4 reads the digit 0. */
  lemma BarePrefix(s: seq<Char>)
    requires s == [48, 120, 0]
    ensures Strtol(s, 16) == (0, 0)
  {
    StrtolReads(s, 16, 0, 0, 2, 16, []);
  }

  // ---------------------------------------------------------------- itoa

  /** The digits of v, most significant first; at least one. */
  function Numeral(v: nat, radix: nat): (r: seq<Char>)
    requires 2 <= radix <= 36
    ensures r != []
  {
    if v < radix then [DigitChar(v)] else Numeral(v / radix, radix) + [DigitChar(v % radix)]
  }

  /** itoa reads a number as signed in radix 10 only. */
  function Written(value: I32, radix: nat): seq<Char>
    requires 2 <= radix <= 36
  {
    if radix == 10 && value < 0 then [MINUS] + Numeral(0 - (value as int), radix) + [0]
    else Numeral(if value < 0 then value as int + 0x1_0000_0000 else value as int, radix) + [0]
  }

  function Reversed(s: seq<Char>): (r: seq<Char>)
    ensures |r| == |s|
  {
    if s == [] then [] else Reversed(s[1..]) + [s[0]]
  }

  lemma {:induction false} ReversedAppend(s: seq<Char>, c: Char)
    ensures Reversed(s + [c]) == [c] + Reversed(s)
  {
    if s == [] {
      assert s + [c] == [c] && [c][1..] == [];
    } else {
      ReversedAppend(s[1..], c);
      assert (s + [c])[1..] == s[1..] + [c];
    }
  }

  /** 32 digits are enough for a 32-bit number in every radix. */
  lemma {:induction false} NumeralFits(v: nat, radix: nat, k: nat)
    requires 2 <= radix <= 36 && v < Shifts.Shl(1, k) && k > 0
    ensures |Numeral(v, radix)| <= k
    decreases k
  {
    if v >= radix {
      assert k > 1;
      HalfFits(v, radix, k);
      NumeralFits(v / radix, radix, k - 1);
    }
  }

  lemma HalfFits(v: nat, radix: nat, k: nat)
    requires radix >= 2 && k > 0 && v < Shifts.Shl(1, k)
    ensures v / radix < Shifts.Shl(1, k - 1)
  {
    var q := v / radix;
    assert v == q * radix + v % radix;
    Shifts.MulMono(2, radix, q);
  }

  /** The digits still to be produced, and those produced so far in reverse. */
  ghost predicate Producing(v: nat, radix: nat, was: seq<Char>, all: seq<Char>)
    requires 2 <= radix <= 36
  {
    if v == 0 && was != [] then Reversed(was) == all else Numeral(v, radix) + Reversed(was) == all
  }

  lemma NumeralStep(v: nat, radix: nat) returns (q: nat, d: nat)
    requires 2 <= radix <= 36
    ensures q == v / radix && d == v % radix < radix && (v > 0 ==> q < v) && q <= v && v == q * radix + d
    ensures q == 0 ==> Numeral(v, radix) == [DigitChar(d)]
    ensures q > 0 ==> Numeral(v, radix) == Numeral(q, radix) + [DigitChar(d)]
  {
    q, d := v / radix, v % radix;
    if v < radix {
      Shifts.DivModUnique(v, radix, 0, v);
    } else {
      assert v == q * radix + d;
      if q <= 0 {
        Shifts.MulMono(q, 0, radix);
      } else {
        Shifts.MulMono(2, radix, q);
      }
    }
  }

  lemma DigitProduced(v: nat, radix: nat, was: seq<Char>, all: seq<Char>, more: seq<Char>)
    requires 2 <= radix <= 36 && Producing(v, radix, was, all) && (v > 0 || was == [])
    requires more == was + [DigitChar(v % radix)]
    ensures Producing(v / radix, radix, more, all) && |was| < |all| && v / radix <= v && (v > 0 ==> v / radix < v)
  {
    var q, digit := NumeralStep(v, radix);
    var d := DigitChar(digit);
    ReversedAppend(was, d);
    if q == 0 {
      assert [d] + Reversed(was) == all;
    } else {
      assert Numeral(q, radix) + [d] + Reversed(was) == Numeral(q, radix) + ([d] + Reversed(was));
    }
  }

  /** The first loop: the digits of v, least significant first, into tmp, which they never overrun. */
  method Digits(tmp: array<Char>, v0: U32, radix: nat) returns (n: nat)
    requires 2 <= radix <= 36 && tmp.Length == 33
    modifies tmp
    ensures 0 < n <= 32 && Reversed(tmp[..n]) == Numeral(v0, radix)
  {
    var v: nat := v0;
    n := 0;
    ghost var all := Numeral(v0, radix);
    Shifts.ShlConstants(1);
    NumeralFits(v0, radix, 32);
    while v > 0 || n == 0
      invariant n <= |all| <= 32 && Producing(v, radix, tmp[..n], all)
      decreases v, if n == 0 then 1 else 0
    {
      ghost var was := tmp[..n];
      tmp[n] := DigitChar(v % radix);
      DigitProduced(v, radix, was, all, tmp[..n + 1]);
      v, n := v / radix, n + 1;
    }
  }

  lemma ReversedStep(s: seq<Char>, n: nat)
    requires 0 < n <= |s|
    ensures Reversed(s[..n]) == [s[n - 1]] + Reversed(s[..n - 1])
  {
    assert s[..n] == s[..n - 1] + [s[n - 1]];
    ReversedAppend(s[..n - 1], s[n - 1]);
  }

  /** The second loop: copies the digits, most significant first, to text from index start on. */
  method CopyBack(tmp: array<Char>, n: nat, text: array<Char>, start: nat)
    requires tmp != text && n <= tmp.Length && start + n < text.Length
    modifies text
    ensures text[..start + n] == old(text[..start]) + Reversed(tmp[..n])
  {
    var tp: nat, sp: nat := n, start;
    ghost var out := text[..start];
    while tp > 0
      invariant tp <= n && sp + tp == start + n && text[..sp] == out
      invariant out + Reversed(tmp[..tp]) == old(text[..start]) + Reversed(tmp[..n])
    {
      ReversedStep(tmp[..], tp);
      assert tmp[..][..tp] == tmp[..tp] && tmp[..][..tp - 1] == tmp[..tp - 1];
      tp := tp - 1;
      text[sp] := tmp[tp];
      assert out + ([tmp[tp]] + Reversed(tmp[..tp])) == out + [tmp[tp]] + Reversed(tmp[..tp]);
      out := out + [tmp[tp]];
      sp := sp + 1;
    }
  }

  /** itoa, with the text allocated to size; None for a radix out of range. */
  method IntToString(value: I32, radix: int) returns (r: Option<array<Char>>)
    ensures r == None <==> radix > 36 || radix <= 1
    ensures r.Some? ==> fresh(r.value) && r.value[..] == Written(value, radix)
  {
    if radix > 36 || radix <= 1 {
      return None;
    }
    var sign := radix == 10 && value < 0;
    var v: int := value;
    var u: U32 := if sign then 0 - v else if v < 0 then v + 0x1_0000_0000 else v;
    var tmp := new Char[33](_ => 0);
    var n := Digits(tmp, u, radix);
    var start := if sign then 1 else 0;
    var text := new Char[n + start + 1](_ => 0);
    if sign {
      text[0] := MINUS;
    }
    assert text[..start] == if sign then [MINUS] else [];
    CopyBack(tmp, n, text, start);
    text[start + n] := 0;
    assert text[..] == text[..start + n] + [0];
    r := Some(text);
  }

  // ---------------------------------------------------------------- the round trip

  lemma {:induction false} NumeralDigits(v: nat, radix: nat)
    requires 2 <= radix <= 36
    ensures forall k | 0 <= k < |Numeral(v, radix)| :: DigitOf(Numeral(v, radix)[k]) < radix
  {
    var q, d := NumeralStep(v, radix);
    if q > 0 {
      NumeralDigits(q, radix);
    }
  }

  /** The numeral of v, wherever it stands, denotes v. */
  lemma {:induction false} NumeralDenotes(v: nat, radix: nat, s: seq<Char>, i: nat, j: nat)
    requires 2 <= radix <= 36 && i <= j <= |s| && s[i..j] == Numeral(v, radix)
    ensures Value(s, i, j, radix) == v
  {
    var q, d := NumeralStep(v, radix);
    var n := Numeral(v, radix);
    var last := j - i - 1;
    assert s[j - 1] == s[i..j][last] == DigitChar(d);
    if q > 0 {
      NumeralInit(s, i, j, n, Numeral(q, radix), DigitChar(d));
      NumeralDenotes(q, radix, s, i, j - 1);
    }
    LastDigit(v, radix, q, d, s, i, j);
  }

  lemma NumeralInit(s: seq<Char>, i: nat, j: nat, n: seq<Char>, init: seq<Char>, last: Char)
    requires i < j <= |s| && s[i..j] == n == init + [last]
    ensures s[i..j - 1] == init
  {
    assert s[i..j - 1] == s[i..j][..j - 1 - i];
  }

  lemma LastDigit(v: nat, radix: nat, q: nat, d: nat, s: seq<Char>, i: nat, j: nat)
    requires v == q * radix + d && i < j <= |s| && DigitOf(s[j - 1]) == d && Value(s, i, j - 1, radix) == q
    ensures Value(s, i, j, radix) == v
  {
  }

  lemma {:induction false} EndOfDigits(s: seq<Char>, i: nat, j: nat, base: nat)
    requires Terminated(s) && i <= j < |s| && base <= 36
    requires (forall k | i <= k < j :: DigitOf(s[k]) < base) && DigitOf(s[j]) >= base
    ensures DigitsEnd(s, i, base) == j
    decreases j - i
  {
    if i < j {
      EndOfDigits(s, i + 1, j, base);
    }
  }

  /** Reading digits with an optional minus sign before them. */
  lemma DigitsParsed(s: seq<Char>, radix: nat, negative: bool, i: nat, j: nat)
    requires 2 <= radix <= 36 && Terminated(s) && i < j == |s| - 1
    requires i == (if negative then 1 else 0) && (negative ==> s[0] == MINUS)
    requires forall k | i <= k < j :: DigitOf(s[k]) < radix
    ensures Parse(s, radix) == Layout(negative, radix, i, j)
  {
    assert DigitOf(s[i]) < radix && DigitOf(s[j]) >= radix;
    EndOfDigits(s, i, j, radix);
    assert i + 1 < j ==> DigitOf(s[i + 1]) < radix;
  }

  lemma NumeralParsed(v: nat, radix: nat, negative: bool, s: seq<Char>, i: nat)
    requires 2 <= radix <= 36 && i == if negative then 1 else 0
    requires s == (if negative then [MINUS] else []) + Numeral(v, radix) + [0]
    ensures Terminated(s) && Parse(s, radix) == Layout(negative, radix, i, |s| - 1) && Value(s, i, |s| - 1, radix) == v
  {
    var n, j := Numeral(v, radix), |s| - 1;
    NumeralDigits(v, radix);
    forall k | i <= k < j
      ensures DigitOf(s[k]) < radix
    {
      assert s[k] == n[k - i];
    }
    DigitsParsed(s, radix, negative, i, j);
    assert s[i..j] == n;
    NumeralDenotes(v, radix, s, i, j);
  }

  /** A numeral has no leading zero, unless it is 0, and its letters are small. */
  lemma {:induction false} NumeralShape(v: nat, radix: nat)
    requires 2 <= radix <= 36
    ensures Numeral(v, radix)[0] == 48 <==> v == 0
    ensures v == 0 ==> Numeral(v, radix) == [48]
    ensures forall k | 0 <= k < |Numeral(v, radix)| ::
      48 <= Numeral(v, radix)[k] <= 57 || 97 <= Numeral(v, radix)[k] <= 122
  {
    var q, d := NumeralStep(v, radix);
    if q > 0 {
      NumeralShape(q, radix);
    }
  }

  /** What itoa writes: a minus sign for a negative number in radix 10, the digits of the number, or of the number plus
      2^32 if it is negative in another radix, and the terminator. */
  lemma WrittenDenotes(value: I32, radix: nat)
    requires 2 <= radix <= 36
    ensures var text, start := Written(value, radix), if radix == 10 && value < 0 then 1 else 0;
      && |text| > start + 1 && text[|text| - 1] == 0 && (start == 1 ==> text[0] == 45)
      && Value(text, start, |text| - 1, radix) ==
         (if value >= 0 then value as int else if radix == 10 then 0 - (value as int) else value as int + 0x1_0000_0000)
      && (text[start] == 48 ==> value == 0 && |text| == 2)
      && forall k | start <= k < |text| - 1 :: 48 <= text[k] <= 57 || 97 <= text[k] <= 122
  {
    var text, v: int := Written(value, radix), value;
    var negative := radix == 10 && v < 0;
    var u: nat := if negative then 0 - v else if v < 0 then v + 0x1_0000_0000 else v;
    var start := if negative then 1 else 0;
    NumeralShape(u, radix);
    assert text[start..|text| - 1] == Numeral(u, radix);
    NumeralDenotes(u, radix, text, start, |text| - 1);
    forall k | start <= k < |text| - 1
      ensures 48 <= text[k] <= 57 || 97 <= text[k] <= 122
    {
      assert text[k] == Numeral(u, radix)[k - start];
    }
  }

  /** strtol gives back what itoa has written, if and only if the radix is 10 or the number not negative. */
  lemma RoundTrip(value: I32, radix: nat)
    requires 2 <= radix <= 36
    ensures Terminated(Written(value, radix))
    ensures Strtol(Written(value, radix), radix) == (value, |Written(value, radix)| - 1) <==> radix == 10 || value >= 0
  {
    var s, v: int := Written(value, radix), value;
    if radix == 10 && v < 0 {
      NumeralParsed(0 - v, radix, true, s, 1);
    } else {
      var u := if v < 0 then v + 0x1_0000_0000 else v;
      assert [] + Numeral(u, radix) == Numeral(u, radix);
      NumeralParsed(u, radix, false, s, 0);
    }
  }
}

/** strchr of hxlib/string.c: a search by aligned 32-bit words against a search byte by byte. */
module Strchr {
  import opened Options

  /** Byte k of a little-endian word. */
  function ByteOf(w: bv32, k: nat): bv32
    requires k < 4
  {
    if k == 0 then w & 0xff else if k == 1 then (w >> 8) & 0xff else if k == 2 then (w >> 16) & 0xff else (w >> 24) & 0xff
  }

  /** Words are little-endian: the bytes of a word, from its lowest address up. */
  lemma BytesOfWord(b0: bv32, b1: bv32, b2: bv32, b3: bv32)
    requires b0 <= 0xff && b1 <= 0xff && b2 <= 0xff && b3 <= 0xff
    ensures var w := b0 | (b1 << 8) | (b2 << 16) | (b3 << 24);
      ByteOf(w, 0) == b0 && ByteOf(w, 1) == b1 && ByteOf(w, 2) == b2 && ByteOf(w, 3) == b3
  {
  }

  const MAGIC: bv32 := 0x7efe_feff

  /** The hole bits that adding the magic number leaves unchanged. */
  function Unchanged(w: bv32): bv32 { ((w + MAGIC) ^ !w) & !MAGIC }

  function CharMask(c: bv32): bv32
  {
    var pair := c | (c << 8);
    pair | (pair << 16)
  }

  predicate Alarm(w: bv32, mask: bv32) { Unchanged(w) != 0 || Unchanged(w ^ mask) != 0 }

  /** The test is raised exactly by a zero byte, or by the value 128 in the top byte. */
  lemma UnchangedIff(w: bv32)
    ensures Unchanged(w) != 0 <==>
      ByteOf(w, 0) == 0 || ByteOf(w, 1) == 0 || ByteOf(w, 2) == 0 || ByteOf(w, 3) == 0 || ByteOf(w, 3) == 0x80
  {
  }

  lemma MaskRepeats(c: bv32)
    requires c <= 0xff
    ensures ByteOf(CharMask(c), 0) == c && ByteOf(CharMask(c), 1) == c
    ensures ByteOf(CharMask(c), 2) == c && ByteOf(CharMask(c), 3) == c
  {
  }

  lemma XorByte(a: bv32, b: bv32, k: nat)
    requires k < 4 && ByteOf(a, k) == ByteOf(b, k)
    ensures ByteOf(a ^ b, k) == 0
  {
  }

  lemma ZeroRaises(x: bv32, k: nat)
    requires k < 4 && ByteOf(x, k) == 0
    ensures Unchanged(x) != 0
  {
    UnchangedIff(x);
  }

  lemma CharRaises(w: bv32, c: bv32, mask: bv32, k: nat)
    requires k < 4 && ByteOf(w, k) == c && ByteOf(mask, k) == c
    ensures Unchanged(w ^ mask) != 0
  {
    XorByte(w, mask, k);
    ZeroRaises(w ^ mask, k);
  }

  /** A word that holds the character or a zero is never skipped. */
  lemma AlarmCatches(w: bv32, c: bv32, mask: bv32, k: nat)
    requires k < 4 && ByteOf(mask, k) == c && (ByteOf(w, k) == 0 || ByteOf(w, k) == c)
    ensures Alarm(w, mask)
  {
    if ByteOf(w, k) == 0 {
      ZeroRaises(w, k);
    } else {
      CharRaises(w, c, mask, k);
    }
  }

  /** Every byte of the mask is the character. */
  ghost predicate IsMask(mask: bv32, c: bv32) { forall k | 0 <= k < 4 :: ByteOf(mask, k) == c }

  lemma SilentWord(w: bv32, c: bv32, mask: bv32)
    requires IsMask(mask, c) && !Alarm(w, mask)
    ensures forall k | 0 <= k < 4 :: ByteOf(w, k) != c && ByteOf(w, k) != 0
  {
    forall k: nat | k < 4
      ensures ByteOf(w, k) != c && ByteOf(w, k) != 0
    {
      if ByteOf(w, k) == c || ByteOf(w, k) == 0 {
        AlarmCatches(w, c, mask, k);
      }
    }
  }

  // ---------------------------------------------------------------- memory

  /** The byte at an address, in memory that is read by words. */
  function CharAt(words: seq<bv32>, a: nat): bv32
    requires a < 4 * |words|
  {
    ByteOf(words[a / 4], a % 4)
  }

  /** The search of C11 section 7.24.5.2, byte by byte: the first c at or before the terminator. */
  function Search(words: seq<bv32>, a: nat, c: bv32): Option<nat>
    decreases 4 * |words| - a
  {
    if a >= 4 * |words| then None
    else if CharAt(words, a) == c then Some(a)
    else if CharAt(words, a) == 0 then None
    else Search(words, a + 1, c)
  }

  /** The string that starts at a is terminated within the memory. */
  ghost predicate Terminated(words: seq<bv32>, a: nat)
  {
    exists e: nat :: a <= e < 4 * |words| && CharAt(words, e) == 0
  }

  /** No byte from a up to e is c. */
  ghost predicate Absent(words: seq<bv32>, a: nat, e: nat, c: bv32)
  {
    e <= 4 * |words| && forall i: nat | a <= i < e :: CharAt(words, i) != c
  }

  /** What is found is the first occurrence, and no terminator comes before it. */
  lemma {:induction false} SearchFinds(words: seq<bv32>, a: nat, c: bv32)
    requires Search(words, a, c).Some?
    ensures var r := Search(words, a, c).value;
      && a <= r < 4 * |words| && CharAt(words, r) == c && Absent(words, a, r, c) && Absent(words, a, r, 0)
    decreases 4 * |words| - a
  {
    if CharAt(words, a) != c {
      SearchFinds(words, a + 1, c);
    }
  }

  /** If nothing is found, there is no occurrence up to and including the terminator. */
  lemma {:induction false} SearchMisses(words: seq<bv32>, a: nat, c: bv32, e: nat)
    requires a <= e < 4 * |words| && CharAt(words, e) == 0 && Absent(words, a, e, 0)
    ensures Search(words, a, c) == None <==> Absent(words, a, e + 1, c)
    decreases e - a
  {
    if a < e && CharAt(words, a) != c {
      SearchMisses(words, a + 1, c, e);
    }
  }

  lemma StepOn(words: seq<bv32>, a: nat, c: bv32)
    requires Terminated(words, a)
    ensures a < 4 * |words|
    ensures CharAt(words, a) != c && CharAt(words, a) != 0 ==>
      Terminated(words, a + 1) && Search(words, a, c) == Search(words, a + 1, c)
  {
    var e: nat :| a <= e < 4 * |words| && CharAt(words, e) == 0;
    if CharAt(words, a) != 0 {
      assert a + 1 <= e;
    }
  }

  lemma CharInWord(words: seq<bv32>, j: nat, k: nat)
    requires j < |words| && k < 4
    ensures CharAt(words, 4 * j + k) == ByteOf(words[j], k)
  {
  }

  lemma SkipByte(words: seq<bv32>, j: nat, k: nat, a: nat, c: bv32)
    requires j < |words| && k < 4 && a == 4 * j + k && Terminated(words, a)
    requires ByteOf(words[j], k) != c && ByteOf(words[j], k) != 0
    ensures Terminated(words, a + 1) && Search(words, a, c) == Search(words, a + 1, c)
  {
    StepOn(words, a, c);
    CharInWord(words, j, k);
  }

  lemma SkipWord(words: seq<bv32>, j: nat, a: nat, c: bv32)
    requires j < |words| && a == 4 * j && Terminated(words, a)
    requires forall k | 0 <= k < 4 :: ByteOf(words[j], k) != c && ByteOf(words[j], k) != 0
    ensures Terminated(words, a + 4) && Search(words, a, c) == Search(words, a + 4, c)
  {
    SkipByte(words, j, 0, a, c);
    SkipByte(words, j, 1, a + 1, c);
    SkipByte(words, j, 2, a + 2, c);
    SkipByte(words, j, 3, a + 3, c);
  }

  /** Looks for c or the terminator in the four bytes of the word at address first; undecided if there is neither. */
  method InWord(words: seq<bv32>, j: nat, first: nat, c: bv32) returns (decided: bool, r: Option<nat>)
    requires j < |words| && first == 4 * j && Terminated(words, first)
    ensures decided ==> r == Search(words, first, c)
    ensures !decided ==> forall k | 0 <= k < 4 :: ByteOf(words[j], k) != c && ByteOf(words[j], k) != 0
  {
    var k, a := 0, first;
    while k < 4
      invariant 0 <= k <= 4 && forall i | 0 <= i < k :: ByteOf(words[j], i) != c && ByteOf(words[j], i) != 0
      invariant a == first + k && Terminated(words, a) && Search(words, a, c) == Search(words, first, c)
    {
      var byte := ByteOf(words[j], k);
      Decide(words, j, k, a, c);
      if byte == c {
        return true, Some(a);
      } else if byte == 0 {
        return true, None;
      }
      k, a := k + 1, a + 1;
    }
    return false, None;
  }

  lemma Decide(words: seq<bv32>, j: nat, k: nat, a: nat, c: bv32)
    requires j < |words| && k < 4 && a == 4 * j + k && Terminated(words, a)
    ensures ByteOf(words[j], k) == c ==> Search(words, a, c) == Some(a)
    ensures ByteOf(words[j], k) != c && ByteOf(words[j], k) == 0 ==> Search(words, a, c) == None
    ensures ByteOf(words[j], k) != c && ByteOf(words[j], k) != 0 ==>
      Terminated(words, a + 1) && Search(words, a, c) == Search(words, a + 1, c)
  {
    StepOn(words, a, c);
    CharInWord(words, j, k);
  }

  /** The characters before the first aligned address, one at a time. */
  method ToAlignment(words: seq<bv32>, s: nat, c: bv32) returns (decided: bool, r: Option<nat>, a: nat)
    requires Terminated(words, s)
    ensures decided ==> r == Search(words, s, c)
    ensures !decided ==> a % 4 == 0 && Terminated(words, a) && Search(words, a, c) == Search(words, s, c)
  {
    a := s;
    while a % 4 != 0
      invariant Terminated(words, a) && Search(words, a, c) == Search(words, s, c)
      decreases 4 * |words| - a
    {
      StepOn(words, a, c);
      if CharAt(words, a) == c {
        return true, Some(a), a;
      } else if CharAt(words, a) == 0 {
        return true, None, a;
      }
      a := a + 1;
    }
    return false, None, a;
  }

  /** The same result as the search byte by byte, for every string, character and alignment. */
  method Strchr(words: seq<bv32>, s: nat, cIn: bv32) returns (r: Option<nat>)
    requires Terminated(words, s)
    ensures r == Search(words, s, cIn & 0xff)
  {
    var c := cIn & 0xff;
    var decided, a;
    decided, r, a := ToAlignment(words, s, c);
    if decided {
      return;
    }
    var mask := CharMask(c);
    MaskRepeats(c);
    r := ByWords(words, a / 4, a, c, mask);
  }

  method ByWords(words: seq<bv32>, first: nat, start: nat, c: bv32, mask: bv32) returns (r: Option<nat>)
    requires IsMask(mask, c) && start == 4 * first && Terminated(words, start)
    ensures r == Search(words, start, c)
  {
    var j, a := first, start;
    while true
      invariant a == 4 * j && Terminated(words, a) && Search(words, a, c) == Search(words, start, c)
      decreases |words| - j
    {
      StepOn(words, a, c);
      if Alarm(words[j], mask) {
        var decided;
        decided, r := InWord(words, j, a, c);
        if decided {
          return;
        }
      } else {
        SilentWord(words[j], c, mask);
      }
      SkipWord(words, j, a, c);
      j, a := j + 1, a + 4;
    }
  }
}

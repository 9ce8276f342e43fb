/** Little-endian 16-bit words in byte memory. */
module Bytes {
  type Byte = x: int | 0 <= x < 0x100
  type U16 = x: int | 0 <= x < 0x1_0000
  type Memory = seq<Byte>

  function Get16(mem: Memory, at: nat): U16
    requires at + 2 <= |mem|
  {
    var low: int, high: int := mem[at], mem[at + 1];
    low + 0x100 * high
  }

  function Put16(mem: Memory, at: nat, v: U16): (r: Memory)
    requires at + 2 <= |mem|
    ensures |r| == |mem| && Get16(r, at) == v
    ensures forall i | 0 <= i < |mem| && i != at && i != at + 1 :: r[i] == mem[i]
  {
    mem[at := v % 0x100][at + 1 := v / 0x100]
  }

  /** The two bytes of a word, stored in place. */
  method Store16(buffer: array<Byte>, at: nat, v: U16)
    requires at + 2 <= buffer.Length
    modifies buffer
    ensures buffer[..] == Put16(old(buffer[..]), at, v)
  {
    buffer[at] := v % 0x100;
    buffer[at + 1] := v / 0x100;
  }

  /** The two memories agree on the bytes from lo up to hi, as far as they exist. */
  ghost predicate Agree(a: Memory, b: Memory, lo: int, hi: int)
  {
    |a| == |b| && forall i | 0 <= i < |a| && lo <= i < hi :: a[i] == b[i]
  }

  /** Only the bytes from lo up to hi may differ. */
  ghost predicate OnlyWithin(a: Memory, b: Memory, lo: int, hi: int)
  {
    |a| == |b| && forall i | 0 <= i < |a| && !(lo <= i < hi) :: a[i] == b[i]
  }

  function Words(s: seq<U16>): (r: Memory)
    ensures |r| == 2 * |s|
    ensures forall i | 0 <= i < |s| :: Get16(r, 2 * i) == s[i]
  {
    if s == [] then []
    else
      var n := |s| - 1;
      Words(s[..n]) + [s[n] % 0x100, s[n] / 0x100]
  }

  lemma {:induction false} WordBytes(s: seq<U16>, i: nat)
    requires i < |s|
    ensures Words(s)[2 * i] == s[i] % 0x100 && Words(s)[2 * i + 1] == s[i] / 0x100
  {
    var n := |s| - 1;
    if i < n {
      WordBytes(s[..n], i);
    }
  }

  function Repeat<T>(x: T, n: nat): (r: seq<T>)
    ensures |r| == n && forall i | 0 <= i < n :: r[i] == x
  {
    if n == 0 then [] else Repeat(x, n - 1) + [x]
  }
}

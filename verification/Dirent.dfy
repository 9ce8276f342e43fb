/** Directory streams of hxlib/dirent.c: a one-entry lookahead cache over the file system's cursor, positions that are
    name hashes, and scandir. */
module Dirent {
  import opened Allocation
  import opened CTypes
  import opened Options
  import QSort

  const END: I32 := 0x7fff_ffff

  /** An entry of the file system; the long name may be empty. */
  datatype FileEntry = FileEntry(longName: seq<Char>, shortName: seq<Char>, attributes: nat)

  datatype FileType = CharacterDevice | Directory | Regular
  datatype DirEnt = DirEnt(name: seq<Char>, fileType: FileType, offset: I32)

  // ---------------------------------------------------------------- positions

  function HashFrom(hash: nat, name: seq<Char>): nat
    decreases |name|
  {
    if name == [] then hash else HashFrom((hash * 33 + name[0]) % 0x1_0000_0000, name[1..])
  }

  /** The hash of a name, without its top bit. */
  function Hash(e: FileEntry): I32 { HashFrom(5381, e.longName) % 0x8000_0000 }

  // ---------------------------------------------------------------- what the hash is

  function Power33(n: nat): nat { if n == 0 then 1 else 33 * Power33(n - 1) }

  /** The first n characters of a name, each with its weight. */
  function Weighted(name: seq<Char>, n: nat): int
    requires n <= |name|
  {
    if n == 0 then 0
    else
      var c: int := name[n - 1];
      Weighted(name, n - 1) + c * Power33(|name| - n)
  }

  lemma ModScale(x: int, k: int, c: int)
    ensures (x % TWO_32 * k + c) % TWO_32 == (x * k + c) % TWO_32
  {
    var q, r := x / TWO_32, x % TWO_32;
    var p, m := (r * k + c) / TWO_32, (r * k + c) % TWO_32;
    assert x == q * TWO_32 + r && r * k + c == p * TWO_32 + m;
    assert x * k + c == (q * k + p) * TWO_32 + m;
    Unique32(x * k + c, q * k + p, m);
  }

  lemma Unique32(x: int, q: int, r: int)
    requires x == q * TWO_32 + r && 0 <= r < TWO_32
    ensures x % TWO_32 == r
  {
  }

  /** Dropping the first character leaves the weights of the others. */
  lemma {:induction false} WeightedTail(name: seq<Char>, n: nat)
    requires 0 < n <= |name|
    ensures var c: int := name[0];
      Weighted(name, n) == c * Power33(|name| - 1) + Weighted(name[1..], n - 1)
  {
    if n > 1 {
      WeightedTail(name, n - 1);
      assert name[1..][n - 2] == name[n - 1];
    }
  }

  lemma Regroup(hash: int, c: int, p: nat, w: int)
    ensures (hash * 33 + c) * p + w == hash * (33 * p) + (c * p + w)
  {
  }

  lemma {:induction false} HashFromIs(hash: nat, name: seq<Char>)
    ensures HashFrom(hash, name) % TWO_32 == (hash * Power33(|name|) + Weighted(name, |name|)) % TWO_32
    decreases |name|
  {
    if name != [] {
      var c: int, tail := name[0], name[1..];
      var next := (hash * 33 + c) % TWO_32;
      HashFromIs(next, tail);
      var p, w := Power33(|tail|), Weighted(tail, |tail|);
      ModScale(hash * 33 + c, p, w);
      WeightedTail(name, |name|);
      Regroup(hash, c, p, w);
    }
  }

  lemma {:induction false} HashFromInRange(hash: nat, name: seq<Char>)
    requires hash < TWO_32
    ensures HashFrom(hash, name) < TWO_32
    decreases |name|
  {
    if name != [] {
      var c: int := name[0];
      HashFromInRange((hash * 33 + c) % TWO_32, name[1..]);
    }
  }

  /** 5381 * 33^n, and every character times its power of 33, modulo 2^32, without the top bit. */
  lemma HashIs(e: FileEntry)
    ensures var n := |e.longName|;
      Hash(e) == (5381 * Power33(n) + Weighted(e.longName, n)) % 0x1_0000_0000 % 0x8000_0000
  {
    HashFromIs(5381, e.longName);
    HashFromInRange(5381, e.longName);
  }

  lemma {:induction false} WeightedPrefix(a: seq<Char>, b: seq<Char>, n: nat)
    requires |a| == |b| && n <= |a| && a[..n] == b[..n]
    ensures Weighted(a, n) == Weighted(b, n)
  {
    if n > 0 {
      assert a[n - 1] == a[..n][n - 1] == b[..n][n - 1] == b[n - 1];
      assert a[..n - 1] == a[..n][..n - 1] == b[..n][..n - 1] == b[..n - 1];
      WeightedPrefix(a, b, n - 1);
    }
  }

  lemma NearValues(x: int, y: int)
    requires x != y && -256 < x - y < 256
    ensures x % 0x1_0000_0000 % 0x8000_0000 != y % 0x1_0000_0000 % 0x8000_0000
  {
    DropTopBit(x);
    DropTopBit(y);
    var p, q := x / 0x8000_0000, y / 0x8000_0000;
    assert x == p * 0x8000_0000 + x % 0x8000_0000 && y == q * 0x8000_0000 + y % 0x8000_0000;
  }

  lemma DropTopBit(x: int)
    ensures x % 0x1_0000_0000 % 0x8000_0000 == x % 0x8000_0000
  {
    var q, r := x / 0x1_0000_0000, x % 0x1_0000_0000;
    var p, m := r / 0x8000_0000, r % 0x8000_0000;
    assert x == (2 * q + p) * 0x8000_0000 + m;
  }

  /** The names differ in their last characters only. */
  predicate Siblings(a: seq<Char>, b: seq<Char>)
  {
    |a| == |b| > 0 && a[..|a| - 1] == b[..|b| - 1] && a[|a| - 1] != b[|b| - 1]
  }

  /** Names that differ in their last character only have different hashes. */
  lemma SiblingsDiffer(a: FileEntry, b: FileEntry)
    requires Siblings(a.longName, b.longName)
    ensures Hash(a) != Hash(b)
  {
    var n := |a.longName|;
    HashIs(a);
    HashIs(b);
    WeightedPrefix(a.longName, b.longName, n - 1);
    var c: int, d: int := a.longName[n - 1], b.longName[n - 1];
    var x := 5381 * Power33(n) + Weighted(a.longName, n);
    var y := 5381 * Power33(n) + Weighted(b.longName, n);
    assert Power33(0) == 1 && x - y == c - d;
    NearValues(x, y);
  }

  /** What telldir reports when these entries are still to come. */
  function Position(rest: seq<FileEntry>): I32
  {
    if rest == [] then END else Hash(rest[0])
  }

  /** What is still to come after seekdir: everything from the first name with this hash. */
  function SeekTo(listing: seq<FileEntry>, loc: I32): seq<FileEntry>
  {
    if listing == [] then [] else if Hash(listing[0]) == loc then listing else SeekTo(listing[1..], loc)
  }

  lemma {:induction false} SeekFinds(listing: seq<FileEntry>, loc: I32, k: nat)
    requires k <= |listing| && (forall i | 0 <= i < k :: Hash(listing[i]) != loc)
    requires k == |listing| || Hash(listing[k]) == loc
    ensures SeekTo(listing, loc) == listing[k..]
  {
    if k > 0 {
      SeekFinds(listing[1..], loc, k - 1);
      assert listing[1..][k - 1..] == listing[k..];
    }
  }

  /** Seeking to the position of the k-th entry brings back exactly what was still to come, if and only if no earlier
      name has the same hash. */
  lemma SeekRestores(listing: seq<FileEntry>, k: nat)
    requires k <= |listing|
    ensures SeekTo(listing, Position(listing[k..])) == listing[k..] <==>
            forall i | 0 <= i < k :: Hash(listing[i]) != Position(listing[k..])
  {
    var loc := Position(listing[k..]);
    if i :| 0 <= i < k && Hash(listing[i]) == loc {
      var first := FirstWith(listing, loc, i);
      SeekFinds(listing, loc, first);
      assert |listing[first..]| > |listing[k..]|;
    } else {
      SeekFinds(listing, loc, k);
    }
  }

  lemma FirstWith(listing: seq<FileEntry>, loc: I32, i: nat) returns (k: nat)
    requires i < |listing| && Hash(listing[i]) == loc
    ensures k <= i && Hash(listing[k]) == loc && forall j | 0 <= j < k :: Hash(listing[j]) != loc
  {
    k := 0;
    while Hash(listing[k]) != loc
      invariant k <= i && forall j | 0 <= j < k :: Hash(listing[j]) != loc
      decreases i - k
    {
      k := k + 1;
    }
  }

  /** Every position can be sought, if and only if the hashes are distinct and none is the end marker. */
  lemma AllPositionsRestored(listing: seq<FileEntry>)
    ensures (forall k | 0 <= k <= |listing| :: SeekTo(listing, Position(listing[k..])) == listing[k..]) <==>
            (forall i, k | 0 <= i < k <= |listing| :: Hash(listing[i]) != Position(listing[k..]))
  {
    forall k | 0 <= k <= |listing|
      ensures SeekTo(listing, Position(listing[k..])) == listing[k..] <==>
              forall i | 0 <= i < k :: Hash(listing[i]) != Position(listing[k..])
    {
      SeekRestores(listing, k);
    }
  }

  /** In a directory whose names differ in their last characters only, every position of an entry can be sought, and the
      end as well unless a name has its hash. */
  lemma SiblingsRestored(listing: seq<FileEntry>, k: nat)
    requires k <= |listing|
    requires forall i, j | 0 <= i < j < |listing| :: Siblings(listing[i].longName, listing[j].longName)
    requires k == |listing| ==> forall e | e in listing :: Hash(e) != END
    ensures SeekTo(listing, Position(listing[k..])) == listing[k..]
  {
    forall i | 0 <= i < k
      ensures Hash(listing[i]) != Position(listing[k..])
    {
      if k < |listing| {
        SiblingsDiffer(listing[i], listing[k]);
      }
    }
    SeekRestores(listing, k);
  }

  /** With two entries of one hash, the position of the second brings back both. */
  lemma SecondOfTwo(a: FileEntry, b: FileEntry)
    requires Hash(a) == Hash(b)
    ensures SeekTo([a, b], Position([a, b][1..])) == [a, b] != [a, b][1..]
  {
    assert [a, b][1..] == [b];
  }

  /** The names "Ez" and "FY" have one hash. */
  lemma NamesCollide(a: FileEntry, b: FileEntry)
    requires a.longName == [69, 122] && b.longName == [70, 89]
    ensures Hash(a) == Hash(b) && SeekTo([a, b], Position([a, b][1..])) != [a, b][1..]
  {
    TwoChars(a.longName, 69, 122);
    TwoChars(b.longName, 70, 89);
    SecondOfTwo(a, b);
  }

  lemma TwoChars(name: seq<Char>, c: int, d: int)
    requires |name| == 2 && name[0] == c && name[1] == d
    ensures HashFrom(5381, name) == ((5381 * 33 + c) % 0x1_0000_0000 * 33 + d) % 0x1_0000_0000
  {
    var first, second := (5381 * 33 + c) % 0x1_0000_0000, name[1..];
    assert HashFrom(first, second) == HashFrom((first * 33 + second[0]) % 0x1_0000_0000, second[1..]);
  }

  /** So have any two entries without a long name. */
  lemma UnnamedCollide(a: FileEntry, b: FileEntry)
    requires a.longName == [] && b.longName == []
    ensures Hash(a) == Hash(b) && SeekTo([a, b], Position([a, b][1..])) != [a, b][1..]
  {
    SecondOfTwo(a, b);
  }

  // ---------------------------------------------------------------- the stream

  function TypeOf(attributes: nat): FileType
  {
    if attributes / 0x40 % 2 == 1 then CharacterDevice else if attributes / 0x10 % 2 == 1 then Directory else Regular
  }

  lemma BitAt(x: nat, unit: nat, upper: nat, bit: nat, lower: nat)
    requires (unit == 0x40 || unit == 0x10) && x == unit * (2 * upper + bit) + lower && lower < unit && bit <= 1
    ensures x / unit % 2 == bit
  {
    assert x / unit == 2 * upper + bit;
  }

  /** Bit 6 of the attributes makes a device, and bit 4 otherwise a directory, whatever the other bits are. */
  lemma TypeOfBits(x: nat, high: nat, bit6: nat, bit5: nat, bit4: nat, low: nat)
    requires x == 128 * high + 64 * bit6 + 32 * bit5 + 16 * bit4 + low
    requires bit6 <= 1 && bit5 <= 1 && bit4 <= 1 && low < 16
    ensures TypeOf(x) == if bit6 == 1 then CharacterDevice else if bit4 == 1 then Directory else Regular
  {
    BitAt(x, 0x40, high, bit6, 32 * bit5 + 16 * bit4 + low);
    BitAt(x, 0x10, 4 * high + 2 * bit6 + bit5, bit4, low);
  }

  /** The entry that readdir hands out, when these entries are still to come after it. */
  function Described(e: FileEntry, rest: seq<FileEntry>): DirEnt
  {
    DirEnt(if e.longName == [] then e.shortName else e.longName, TypeOf(e.attributes), Position(rest))
  }

  /** A stream over a directory that does not change; next is the file system's own cursor. */
  class DirStream {
    const listing: seq<FileEntry>
    var next: nat
    var cached: bool
    var invalid: bool
    var data: FileEntry

    ghost predicate Valid()
      reads this
    {
      next <= |listing| && listing != [] && (cached ==> next > 0 && data == listing[next - 1])
    }

    /** The entries that readdir has still to return. */
    ghost function Remaining(): seq<FileEntry>
      requires Valid()
      reads this
    {
      if invalid then [] else if cached then listing[next - 1..] else listing[next..]
    }

    /** A directory always has an entry; without one the file system refuses to open it. */
    constructor (listing: seq<FileEntry>)
      requires listing != []
      ensures Valid() && this.listing == listing && Remaining() == listing && !invalid
    {
      this.listing := listing;
      next, cached, invalid, data := 1, true, false, listing[0];
    }

    /** dirent_first: restarts the file system's cursor, and leaves the invalid flag alone. */
    method First()
      requires Valid()
      modifies this
      ensures Valid() && invalid == old(invalid) && next == 1 && cached
    {
      next, cached, data := 1, true, listing[0];
    }

    /** dirent_next: takes one entry. */
    method Next() returns (r: Option<FileEntry>)
      requires Valid()
      modifies this
      ensures Valid() && invalid == old(invalid)
      ensures r == if old(Remaining()) == [] then None else Some(old(Remaining())[0])
      ensures Remaining() == if r == None then [] else old(Remaining())[1..]
      ensures r.Some? ==> next > 0 && data == listing[next - 1] == r.value && !cached
    {
      if invalid {
        return None;
      }
      if cached {
        cached := false;
        return Some(data);
      }
      if next == |listing| {
        return None;
      }
      data, next := listing[next], next + 1;
      return Some(data);
    }

    /** The entry just taken goes back to the cache. */
    method PutBack()
      requires Valid() && !invalid && !cached && next > 0 && data == listing[next - 1]
      modifies this`cached
      ensures Valid() && Remaining() == [data] + old(Remaining())
    {
      cached := true;
    }

    /** readdir_r: takes one entry, looks at the one behind it, and puts that back. */
    method Read() returns (r: Option<DirEnt>)
      requires Valid()
      modifies this
      ensures Valid() && invalid == old(invalid)
      ensures old(Remaining()) == [] ==> r == None && Remaining() == []
      ensures old(Remaining()) != [] ==>
        Remaining() == old(Remaining())[1..] && r == Some(Described(old(Remaining())[0], Remaining()))
    {
      var entry := Next();
      if entry == None {
        return None;
      }
      ghost var rest := Remaining();
      var following := Next();
      var offset := END;
      if following.Some? {
        offset := Hash(following.value);
        PutBack();
        assert Remaining() == rest;
      }
      var e := entry.value;
      r := Some(DirEnt(if e.longName == [] then e.shortName else e.longName, TypeOf(e.attributes), offset));
    }

    /** _wtelldir: looks at the next entry and puts it back. */
    method Tell() returns (loc: I32)
      requires Valid()
      modifies this
      ensures Valid() && Remaining() == old(Remaining()) && invalid == old(invalid)
      ensures loc == Position(Remaining()) && (Remaining() == [] ==> loc == 0x7fff_ffff)
    {
      ghost var rest := Remaining();
      var following := Next();
      if following == None {
        return END;
      }
      PutBack();
      assert Remaining() == rest;
      loc := Hash(following.value);
    }

    /** _wseekdir: searches from the start, and invalidates the stream if nothing is found. */
    method Seek(loc: I32)
      requires Valid()
      modifies this
      ensures Valid() && Remaining() == (if loc < 0 then [] else SeekTo(listing, loc))
      ensures invalid <==> Remaining() == []
    {
      if loc < 0 {
        invalid := true;
        return;
      }
      First();
      invalid := false;
      ghost var rest := listing;
      var hash := -1;
      while hash != loc
        invariant Valid() && !invalid
        invariant if hash == loc then RestAt(rest) else Remaining() == rest
        invariant SeekTo(rest, loc) == SeekTo(listing, loc) && (hash == loc ==> rest != [] && Hash(rest[0]) == loc)
        decreases hash != loc, |rest|
      {
        var following := Next();
        if following == None {
          invalid := true;
          return;
        }
        hash := Hash(following.value);
        if hash != loc {
          rest := rest[1..];
        }
      }
      PutBack();
    }

    /** These entries are still to come once the entry just taken has gone back. */
    ghost predicate RestAt(rest: seq<FileEntry>)
      requires Valid()
      reads this
    {
      !invalid && !cached && next > 0 && data == listing[next - 1] && rest == [data] + Remaining()
    }

    /** _wrewinddir: a stream that a failed seek has invalidated stays at its end. */
    method Rewind()
      requires Valid()
      modifies this
      ensures Valid() && invalid == old(invalid)
      ensures Remaining() == if invalid then [] else listing
      ensures Remaining() == listing <==> !invalid
    {
      First();
    }
  }

  /** Rewinding does not bring back a stream that has been sent to the position telldir reports at the end. */
  method EndThenRewind(d: DirStream)
    requires d.Valid() && forall e | e in d.listing :: Hash(e) != END
    modifies d
    ensures d.Valid() && d.Remaining() == [] != d.listing
  {
    SeekFinds(d.listing, END, |d.listing|);
    d.Seek(END);
    d.Rewind();
  }

  // ---------------------------------------------------------------- scandir

  /** The whole directory as readdir reports it. */
  function Listed(listing: seq<FileEntry>): seq<DirEnt>
  {
    if listing == [] then [] else [Described(listing[0], listing[1..])] + Listed(listing[1..])
  }

  lemma {:induction false} ListedAt(listing: seq<FileEntry>, k: nat)
    requires k < |listing|
    ensures |Listed(listing)| == |listing| && Listed(listing)[k] == Described(listing[k], listing[k + 1..])
    ensures var d, e := Listed(listing)[k], listing[k];
      && (e.longName != [] ==> d.name == e.longName) && (e.longName == [] ==> d.name == e.shortName)
      && d.fileType == TypeOf(e.attributes)
      && d.offset == if k + 1 < |listing| then Hash(listing[k + 1]) else 0x7fff_ffff
  {
    if k > 0 {
      ListedAt(listing[1..], k - 1);
      assert listing[1..][k..] == listing[k + 1..];
    } else if |listing| > 1 {
      ListedAt(listing[1..], 0);
    }
  }

  /** Seeking to the d_off of an entry brings back exactly the entries behind it, if and only if no name up to that entry
      has the hash of the next one (or the end marker for the last). */
  lemma OffsetRestores(listing: seq<FileEntry>, k: nat)
    requires k < |listing|
    ensures |Listed(listing)| == |listing|
    ensures SeekTo(listing, Listed(listing)[k].offset) == listing[k + 1..] <==>
            forall i | 0 <= i <= k :: Hash(listing[i]) != Position(listing[k + 1..])
  {
    ListedAt(listing, k);
    SeekRestores(listing, k + 1);
  }

  function Filtered(entries: seq<DirEnt>, filter: Option<DirEnt -> bool>): seq<DirEnt>
  {
    if entries == [] then []
    else (if filter.Some? && !filter.value(entries[0]) then [] else [entries[0]]) + Filtered(entries[1..], filter)
  }

  predicate Passes(filter: Option<DirEnt -> bool>, entry: DirEnt) { filter == None || filter.value(entry) }

  /** The filter decides entry by entry, and keeps the order. */
  lemma {:induction false} FilteredParts(a: seq<DirEnt>, b: seq<DirEnt>, filter: Option<DirEnt -> bool>)
    ensures Filtered(a + b, filter) == Filtered(a, filter) + Filtered(b, filter)
    ensures forall e :: Filtered([e], filter) == if Passes(filter, e) then [e] else []
  {
    forall e
      ensures Filtered([e], filter) == if Passes(filter, e) then [e] else []
    {
      assert [e][1..] == [];
    }
    if a == [] {
      assert a + b == b;
    } else {
      FilteredParts(a[1..], b, filter);
      assert (a + b)[1..] == a[1..] + b;
    }
  }

  /** An entry is kept as often as it occurs, or never. */
  lemma {:induction false} FilteredCounts(entries: seq<DirEnt>, filter: Option<DirEnt -> bool>, e: DirEnt)
    ensures multiset(Filtered(entries, filter))[e] == if Passes(filter, e) then multiset(entries)[e] else 0
  {
    if entries != [] {
      FilteredCounts(entries[1..], filter, e);
      assert entries == [entries[0]] + entries[1..];
    }
  }

  /** A larger pointer table with the same contents. */
  method Grow(files: array<DirEnt>, size: nat, entry: DirEnt) returns (r: array<DirEnt>)
    requires size <= files.Length
    ensures fresh(r) && r.Length == size * 2 + 16 && r[..size] == files[..size]
  {
    r := new DirEnt[size * 2 + 16](_ => entry);
    forall i | 0 <= i < size {
      r[i] := files[i];
    }
  }

  /** Stores one more entry, enlarging the table if it is full. */
  method Append(heap: Allocator, files: array<DirEnt>, size: nat, entry: DirEnt) returns (ok: bool, r: array<DirEnt>)
    requires heap.Valid() && size <= files.Length
    modifies heap, files
    ensures heap.Valid() && heap.refused == old(heap.refused) + if ok then 0 else 1
    ensures r == files || fresh(r)
    ensures ok ==> size < r.Length && r[..size + 1] == old(files[..size]) + [entry]
  {
    r, ok := files, true;
    if size >= files.Length {
      ok := heap.Available();
      if !ok {
        return;
      }
      r := Grow(files, size, entry);
    }
    r[size] := entry;
  }

  /** What has been kept and what is still to come, after the next entry. */
  lemma FilteredStep(kept: seq<DirEnt>, rest: seq<FileEntry>, filter: Option<DirEnt -> bool>, entry: DirEnt, all: seq<DirEnt>)
    returns (kept': seq<DirEnt>, rest': seq<FileEntry>)
    requires rest != [] && entry == Described(rest[0], rest[1..]) && kept + Filtered(Listed(rest), filter) == all
    ensures rest' == rest[1..] && kept' + Filtered(Listed(rest'), filter) == all
    ensures kept' == if filter.Some? && !filter.value(entry) then kept else kept + [entry]
  {
    kept', rest' := if filter.Some? && !filter.value(entry) then kept else kept + [entry], rest[1..];
    assert Listed(rest)[0] == entry && Listed(rest)[1..] == Listed(rest');
    var tail := Filtered(Listed(rest'), filter);
    assert kept + ([entry] + tail) == kept + [entry] + tail;
    assert [] + tail == tail;
  }

  datatype Progress = Finished | Skipped | Stored | Exhausted

  ghost predicate Reading(dir: DirStream, kept: seq<DirEnt>, rest: seq<FileEntry>, filter: Option<DirEnt -> bool>,
                          all: seq<DirEnt>)
    reads dir
  {
    dir.Valid() && !dir.invalid && dir.Remaining() == rest && kept + Filtered(Listed(rest), filter) == all
  }

  /** One round of the loop of scandir: makes room for an entry unless there is some left, reads it, and stores it if the
      filter lets it through. */
  method ReadOne(heap: Allocator, dir: DirStream, files: array<DirEnt>, size: nat, hasRoom: bool,
                 filter: Option<DirEnt -> bool>, ghost kept: seq<DirEnt>, ghost rest: seq<FileEntry>,
                 ghost all: seq<DirEnt>)
    returns (progress: Progress, r: array<DirEnt>, ghost kept': seq<DirEnt>, ghost rest': seq<FileEntry>)
    requires heap.Valid() && Reading(dir, kept, rest, filter, all) && size <= files.Length && files[..size] == kept
    modifies heap, dir, files
    ensures r == files || fresh(r)
    ensures heap.Valid() && heap.refused == old(heap.refused) + if progress.Exhausted? then 1 else 0
    ensures progress.Finished? ==> kept == all && r == files && r[..size] == kept
    ensures progress.Skipped? || progress.Stored? ==> Reading(dir, kept', rest', filter, all) && |rest'| < |rest|
    ensures progress.Skipped? ==> r == files && r[..size] == kept'
    ensures progress.Stored? ==> size < r.Length && r[..size + 1] == kept'
  {
    kept', rest', r := kept, rest, files;
    if !hasRoom {
      var granted := heap.Available();
      if !granted {
        return Exhausted, r, kept, rest;
      }
    }
    var entry := dir.Read();
    if entry == None {
      return Finished, r, kept, rest;
    }
    kept', rest' := FilteredStep(kept, rest, filter, entry.value, all);
    if filter.Some? && !filter.value(entry.value) {
      return Skipped, r, kept', rest';
    }
    var ok;
    ok, r := Append(heap, files, size, entry.value);
    progress := if ok then Stored else Exhausted;
  }

  /** opendir and _wopendir: requests for two structures and two search patterns, and then the first entry. An empty listing is
      a directory that the file system does not find. */
  method OpenDir(heap: Allocator, listing: seq<FileEntry>) returns (dir: DirStream?)
    requires heap.Valid()
    modifies heap
    ensures heap.Valid() && heap.refused >= old(heap.refused)
    ensures dir == null <==> listing == [] || heap.refused > old(heap.refused)
    ensures dir != null ==> fresh(dir) && dir.Valid() && !dir.invalid && dir.Remaining() == listing
  {
    dir := null;
    var dirp := heap.Available();
    if !dirp {
      return;
    }
    var wdirp := heap.Available();
    if !wdirp {
      return;
    }
    var patt := heap.Available();
    if !patt {
      return;
    }
    var pattCs := heap.Available();
    if !pattCs {
      return;
    }
    if listing != [] {
      dir := new DirStream(listing);
    }
  }

  /** The loop of scandir: size is the number of entries kept, or -1. */
  method ReadAll(heap: Allocator, dir: DirStream, filter: Option<DirEnt -> bool>, ghost listing: seq<FileEntry>)
    returns (files: array<DirEnt>, size: int)
    requires heap.Valid() && dir.Valid() && !dir.invalid && dir.Remaining() == listing
    modifies heap, dir
    ensures fresh(files) && -1 <= size <= files.Length
    ensures heap.Valid() && heap.refused == old(heap.refused) + if size == -1 then 1 else 0
    ensures size >= 0 ==> files[..size] == Filtered(Listed(listing), filter)
  {
    files, size := new DirEnt[0], 0;
    var hasRoom := false;
    ghost var all := Filtered(Listed(listing), filter);
    ghost var rest, kept: seq<DirEnt> := listing, [];
    while true
      invariant fresh(files) && 0 <= size <= files.Length
      invariant Reading(dir, kept, rest, filter, all) && files[..size] == kept
      invariant heap.Valid() && heap.refused == old(heap.refused)
      decreases |rest|
    {
      var progress;
      progress, files, kept, rest := ReadOne(heap, dir, files, size, hasRoom, filter, kept, rest, all);
      match progress
      case Finished => return;
      case Exhausted => return files, -1;
      case Skipped => hasRoom := true;
      case Stored => size, hasRoom := size + 1, false;
    }
  }

  lemma TableSorted(was: seq<DirEnt>, now: seq<DirEnt>, size: nat, all: seq<DirEnt>, compare: (DirEnt, DirEnt) -> int)
    requires size <= |was| && was[..size] == all && QSort.Rearranged(was, now, 0, size)
    requires QSort.TotalPreorder(compare) ==> QSort.Sorted(now, 0, size, compare)
    ensures |now| == |was| && multiset(now[..size]) == multiset(all)
    ensures QSort.TotalPreorder(compare) ==> QSort.Sorted(now[..size], 0, size, compare)
  {
    assert was[0..size] == was[..size] && now[0..size] == now[..size];
  }

  /** Reads, filters and sorts the directory. It fails exactly for a directory that is not found, which is an empty
      listing, or when a request for memory is refused, be it to open the directory. */
  method Scandir(heap: Allocator, listing: seq<FileEntry>, filter: Option<DirEnt -> bool>,
                 compare: Option<(DirEnt, DirEnt) -> int>)
    returns (result: int, names: seq<DirEnt>)
    requires heap.Valid()
    modifies heap
    ensures heap.Valid() && (result == -1 <==> listing == [] || heap.refused > old(heap.refused))
    ensures result == -1 || result == |names|
    ensures result != -1 ==> multiset(names) == multiset(Filtered(Listed(listing), filter))
    ensures result != -1 ==>
      forall e :: multiset(names)[e] == if Passes(filter, e) then multiset(Listed(listing))[e] else 0
    ensures result != -1 && compare == None ==> names == Filtered(Listed(listing), filter)
    ensures result != -1 && compare.Some? && QSort.TotalPreorder(compare.value) ==>
      QSort.Sorted(names, 0, |names|, compare.value)
  {
    var dir := OpenDir(heap, listing);
    if dir == null {
      return -1, [];
    }
    var files;
    files, result := ReadAll(heap, dir, filter, listing);
    if result < 0 {
      return -1, [];
    }
    if result > 1 && compare.Some? {
      ghost var was := files[..];
      QSort.QSort(files, 0, result, compare.value);
      TableSorted(was, files[..], result, Filtered(Listed(listing), filter), compare.value);
    }
    names := files[..result];
    forall e
      ensures multiset(names)[e] == if Passes(filter, e) then multiset(Listed(listing))[e] else 0
    {
      FilteredCounts(Listed(listing), filter, e);
    }
  }
}

/** Saving and executing a snapshot: jerry_parse_and_save_snapshot and jerry_exec_snapshot, without the parser and the
    virtual machine, and the round trip. */
module Snapshot {
  import opened Bytes
  import opened ByteCode
  import opened CodeTree
  import opened Options
  import opened SnapshotSave
  import opened SnapshotOffsets
  import opened SnapshotLoad

  const HEADER_UNITS: nat := 2
  const VERSION: U16 := 6

  datatype LoadError = InvalidVersion | InvalidFormat
  datatype Outcome = Running(root: U16, isGlobal: bool) | TypeError(error: LoadError) | OutOfMemory

  function Get32(mem: Memory, at: nat): nat
    requires at + 4 <= |mem|
  {
    var low: int, high: int := Get16(mem, at), Get16(mem, at + 2);
    low + 0x1_0000 * high
  }

  // ---------------------------------------------------------------- the round trip on trees

  /** The tree after a round trip: function blocks have one reference, and registers are empty. */
  function Normal(c: Code): Code
    decreases c
  {
    match c
    case Regexp(_, _) => c
    case Function(fields, consts, kids, code) =>
      Function(fields.(refs := 1), ClearedWords(fields, consts), NormalKids(c, |kids|), code)
  }

  function NormalKids(c: Code, n: nat): (r: seq<Kid>)
    requires c.Function? && n <= |c.kids|
    ensures |r| == n
    ensures forall j | 0 <= j < n :: r[j] == if c.kids[j].Itself? then Itself else Sub(Normal(c.kids[j].sub))
    decreases c, n
  {
    if n == 0 then []
    else NormalKids(c, n - 1) + [if c.kids[n - 1].Itself? then Itself else Sub(Normal(c.kids[n - 1].sub))]
  }

  function ClearedWords(f: Fields, words: seq<U16>): (r: seq<U16>)
    ensures |r| == |words| && forall i | 0 <= i < |words| :: r[i] == if IsLiteral(f, i) then words[i] else 0
  {
    if words == [] then []
    else
      var n := |words| - 1;
      ClearedWords(f, words[..n]) + [if IsLiteral(f, n) then words[n] else 0]
  }

  /** Loading the offset of a saved identifier gives the identifier back, and no offset is mistaken for an empty slot. */
  ghost predicate Inverse(saved: seq<Entry>, loaded: seq<Entry>)
  {
    forall id: U16 {:trigger OffsetOf(saved, id)} | HasId(saved, id) ::
      && OffsetOf(saved, id) != 0
      && HasOffset(loaded, OffsetOf(saved, id))
      && IdOf(loaded, OffsetOf(saved, id)) == id
  }

  /** A one-to-one table without the offset zero is its own inverse. */
  ghost predicate OneToOne(lits: seq<Entry>)
  {
    && (forall i | 0 <= i < |lits| :: lits[i].offset != 0)
    && (forall i, j | 0 <= i < j < |lits| :: lits[i].id != lits[j].id && lits[i].offset != lits[j].offset)
  }

  lemma OneToOneInverse(lits: seq<Entry>)
    requires OneToOne(lits)
    ensures Inverse(lits, lits)
  {
    forall id: U16 | HasId(lits, id)
      ensures OffsetOf(lits, id) != 0 && HasOffset(lits, OffsetOf(lits, id)) && IdOf(lits, OffsetOf(lits, id)) == id
    {
      var k :| 0 <= k < |lits| && lits[k].id == id;
      EntryFound(lits, k);
    }
  }

  lemma {:induction false} EntryFound(lits: seq<Entry>, k: nat)
    requires OneToOne(lits) && k < |lits|
    ensures OffsetOf(lits, lits[k].id) == lits[k].offset && IdOf(lits, lits[k].offset) == lits[k].id
    ensures HasOffset(lits, lits[k].offset)
  {
    assert lits[k] in lits;
    if k > 0 {
      EntryFound(lits[1..], k - 1);
      assert lits[0].id != lits[k].id && lits[0].offset != lits[k].offset;
    }
  }

  /** Patching and loading undo each other, up to what a snapshot does not keep. */
  lemma {:induction false} RoundTrip(c: Code, saved: seq<Entry>, loaded: seq<Entry>)
    requires Valid(c) && Covered(c, saved) && Inverse(saved, loaded)
    ensures Loaded(Patch(c, saved), loaded) == Normal(c)
    decreases c
  {
    if c.Function? {
      var c' := Patch(c, saved);
      forall i | 0 <= i < |c.consts|
        ensures LoadWord(loaded, c'.consts[i]) == if IsLiteral(c.fields, i) then c.consts[i] else 0
      {
        WordRoundTrip(c.fields, saved, loaded, i, c.consts[i]);
      }
      assert LoadWords(loaded, c'.consts) == ClearedWords(c.fields, c.consts);
      forall j | 0 <= j < |c.kids| && c.kids[j].Sub?
        ensures Loaded(Patch(c.kids[j].sub, saved), loaded) == Normal(c.kids[j].sub)
      {
        RoundTrip(c.kids[j].sub, saved, loaded);
      }
      assert LoadedKids(c', loaded, |c.kids|) == NormalKids(c, |c.kids|);
    }
  }

  lemma WordRoundTrip(f: Fields, saved: seq<Entry>, loaded: seq<Entry>, i: nat, v: U16)
    requires Inverse(saved, loaded) && (IsLiteral(f, i) ==> v == 0 || HasId(saved, v))
    ensures LoadWord(loaded, PatchWord(f, saved, i, v)) == if IsLiteral(f, i) then v else 0
  {
  }

  /** What a tree must satisfy to survive a round trip unchanged. */
  ghost predicate Kept(c: Code)
    decreases c
  {
    match c
    case Regexp(_, _) => true
    case Function(fields, consts, kids, _) =>
      && fields.refs == 1
      && (forall i | 0 <= i < |consts| :: IsLiteral(fields, i) || consts[i] == 0)
      && forall j | 0 <= j < |kids| && kids[j].Sub? :: Kept(kids[j].sub)
  }

  /** Exactly those trees come back as they were whose functions have one reference and empty registers. */
  lemma {:induction false} KeptExactly(c: Code)
    ensures Normal(c) == c <==> Kept(c)
    decreases c
  {
    if c.Function? {
      var cleared := ClearedWords(c.fields, c.consts);
      assert cleared == c.consts <==> forall i | 0 <= i < |c.consts| :: IsLiteral(c.fields, i) || c.consts[i] == 0;
      var kids := NormalKids(c, |c.kids|);
      forall j | 0 <= j < |c.kids| && c.kids[j].Sub?
        ensures kids[j] == c.kids[j] <==> Kept(c.kids[j].sub)
      {
        KeptExactly(c.kids[j].sub);
      }
      assert kids == c.kids <==> forall j | 0 <= j < |c.kids| && c.kids[j].Sub? :: Kept(c.kids[j].sub);
    }
  }

  /** What a round trip makes of the word v in slot i below constEnd, by the header of the function alone: it stays from
      registerEnd on, and below argumentEnd if the function needs an arguments object (bit 4) and is not strict (bit 3). */
  function WordKept(f: Fields, i: nat, v: U16): U16
  {
    if f.registerEnd <= i || (f.flags / 16 % 2 == 1 && f.flags / 8 % 2 == 0 && i < f.argumentEnd) then v else 0
  }

  /** Object p' is what a round trip makes of object p, and so are the objects they refer to, in the shape of c. */
  ghost predicate Restored(heap: Heap, p: U16, heap': Heap, p': U16, c: Code)
    decreases c
  {
    && p in heap && p' in heap' && p' != 0
    && match c
       case Regexp(_, _) => heap[p].Compiled? && heap'[p'] == heap[p]
       case Function(_, consts, kids, _) =>
         && heap[p].Bytecode? && heap'[p'].Bytecode?
         && var b, b' := heap[p].block, heap'[p'].block;
         && b'.fields == b.fields.(refs := 1) && b'.code == b.code && |b'.slots| == |b.slots| == |consts| + |kids|
         && |consts| == b.fields.constEnd
         && (forall i | 0 <= i < b.fields.constEnd :: b'.slots[i] == WordKept(b.fields, i, b.slots[i]))
         && (forall i | |consts| <= i < |b.slots| ::
              if b.slots[i] == p then b'.slots[i] == p'
              else (b'.slots[i] != p' && kids[i - |consts|].Sub?
                    && Restored(heap, b.slots[i], heap', b'.slots[i], kids[i - |consts|].sub)))
  }

  lemma WordsKept(f: Fields, words: seq<U16>)
    ensures forall i | 0 <= i < |words| :: ClearedWords(f, words)[i] == WordKept(f, i, words[i])
  {
  }

  lemma ConstsRestored(b: Block, b': Block, f: Fields, consts: seq<U16>)
    requires |consts| <= |b.slots| && |consts| <= |b'.slots|
    requires b.slots[..|consts|] == consts && b'.slots[..|consts|] == ClearedWords(f, consts)
    ensures forall i | 0 <= i < |consts| :: b'.slots[i] == WordKept(f, i, b.slots[i])
  {
    WordsKept(f, consts);
    forall i | 0 <= i < |consts|
      ensures b'.slots[i] == WordKept(f, i, b.slots[i])
    {
      assert b.slots[i] == b.slots[..|consts|][i] && b'.slots[i] == b'.slots[..|consts|][i];
    }
  }

  /** A tree in one heap and its normal form in another: every object is restored. */
  lemma {:induction false} NormalIsRestored(heap: Heap, p: U16, heap': Heap, p': U16, c: Code)
    requires InHeap(heap, p, c) && Valid(c) && InHeap(heap', p', Normal(c))
    ensures Restored(heap, p, heap', p', c)
    decreases c
  {
    if c.Function? {
      var b, b', n := heap[p].block, heap'[p'].block, |c.consts|;
      ConstsRestored(b, b', c.fields, c.consts);
      forall i | n <= i < |b.slots|
        ensures if b.slots[i] == p then b'.slots[i] == p'
                else (b'.slots[i] != p' && c.kids[i - n].Sub?
                      && Restored(heap, b.slots[i], heap', b'.slots[i], c.kids[i - n].sub))
      {
        if c.kids[i - n].Sub? {
          NormalIsRestored(heap, b.slots[i], heap', b'.slots[i], c.kids[i - n].sub);
        }
      }
    }
  }

  lemma {:induction false} PatchKeepsValid(c: Code, lits: seq<Entry>)
    requires Valid(c)
    ensures Valid(Patch(c, lits))
    decreases c
  {
    if c.Function? {
      forall j | 0 <= j < |c.kids| && c.kids[j].Sub?
        ensures Valid(Patch(c.kids[j].sub, lits))
      {
        PatchKeepsValid(c.kids[j].sub, lits);
      }
    }
  }

  lemma {:induction false} PatchedLoadable(c: Code, saved: seq<Entry>, loaded: seq<Entry>)
    requires Covered(c, saved) && Inverse(saved, loaded)
    ensures Loadable(Patch(c, saved), loaded)
    decreases c
  {
    if c.Function? {
      forall j | 0 <= j < |c.kids| && c.kids[j].Sub?
        ensures Loadable(Patch(c.kids[j].sub, saved), loaded)
      {
        PatchedLoadable(c.kids[j].sub, saved, loaded);
      }
    }
  }

  // ---------------------------------------------------------------- the drivers

  /** The buffer holds a snapshot of size bytes: the header, the tree, and the literal table behind it. */
  ghost predicate IsSnapshot(mem: Memory, size: nat, c: Code, isGlobal: bool, table: seq<Byte>)
  {
    && 16 <= size <= |mem|
    && Get32(mem, 0) == VERSION
    && Get32(mem, 4) == 8 * (HEADER_UNITS + Span(c)) && Get32(mem, 8) == |table|
    && Get32(mem, 12) == (if isGlobal then 1 else 0)
    && size == 8 * (HEADER_UNITS + Span(c)) + |table|
    && mem[8 * (HEADER_UNITS + Span(c))..size] == table
    && Stored(mem, HEADER_UNITS, c)
  }

  lemma {:induction false} SpanPositive(c: Code)
    requires Valid(c)
    ensures Span(c) > 0
  {
  }

  function Halves(v: nat): (r: seq<U16>)
    requires v < 0x1_0000_0000
    ensures |r| == 2 && r[0] + 0x1_0000 * r[1] as int == v
  {
    [v % 0x1_0000, v / 0x1_0000]
  }

  lemma Word32(mem: Memory, words: Memory, at: nat, v: nat, halves: seq<U16>)
    requires |words| <= |mem| && mem[..|words|] == words && at + 4 <= |words|
    requires v < 0x1_0000_0000 && halves == Halves(v) && Get16(words, at) == halves[0] && Get16(words, at + 2) == halves[1]
    ensures Get32(mem, at) == v
  {
    assert mem[at] == words[at] && mem[at + 1] == words[at + 1] && mem[at + 2] == words[at + 2] && mem[at + 3] == words[at + 3];
  }

  method WriteHeader(buffer: array<Byte>, litTableOffset: nat, litTableSize: nat, isGlobal: bool)
    requires buffer.Length >= 16 && litTableOffset < 0x1_0000_0000 && litTableSize < 0x1_0000_0000
    modifies buffer
    ensures Get32(buffer[..], 0) == VERSION && Get32(buffer[..], 4) == litTableOffset && Get32(buffer[..], 8) == litTableSize
    ensures Get32(buffer[..], 12) == if isGlobal then 1 else 0
    ensures OnlyWithin(old(buffer[..]), buffer[..], 0, 16)
  {
    var header := new Writer(buffer, 0);
    var a, b, c, d := Halves(VERSION), Halves(litTableOffset), Halves(litTableSize), Halves(if isGlobal then 1 else 0);
    var all := [a[0], a[1], b[0], b[1], c[0], c[1], d[0], d[1]];
    var words := Words(all);
    var ok := header.Write(words);
    assert buffer[..][..16] == words;
    assert Get16(words, 2 * 0) == all[0] && Get16(words, 2 * 1) == all[1] && Get16(words, 2 * 2) == all[2];
    assert Get16(words, 2 * 3) == all[3] && Get16(words, 2 * 4) == all[4] && Get16(words, 2 * 5) == all[5];
    assert Get16(words, 2 * 6) == all[6] && Get16(words, 2 * 7) == all[7];
    Word32(buffer[..], words, 0, VERSION, a);
    Word32(buffer[..], words, 4, litTableOffset, b);
    Word32(buffer[..], words, 8, litTableSize, c);
    Word32(buffer[..], words, 12, if isGlobal then 1 else 0, d);
  }

  /** The tree at unit u, and the table that the literal storage has built behind it. */
  ghost predicate Filled(mem: Memory, u: nat, c: Code, at: nat, table: seq<Byte>)
  {
    && at == 8 * (u + Span(c)) && at + |table| <= |mem| && mem[at..at + |table|] == table
    && Stored(mem, u, c)
  }

  /** The code and the table have room, and the offsets in the table, which count units of 4 bytes, fit into 16 bits. */
  predicate RoomFor(c: Code, u: nat, table: seq<Byte>, cap: nat)
  {
    Fits(c, u, cap) && 8 * (u + Span(c)) + |table| <= cap && |table| / 4 <= 0xffff
  }

  /** Writes the code and the literal table; 0 if there is no room, or if the table is too long for its offsets. */
  method WriteCode(buffer: array<Byte>, heap: Heap, p: U16, table: seq<Byte>, u: nat, ghost c: Code) returns (at: nat)
    requires InHeap(heap, p, c) && Valid(c) && u > 0
    modifies buffer
    ensures at != 0 <==> RoomFor(c, u, table, buffer.Length)
    ensures at != 0 ==> Filled(buffer[..], u, c, at, table)
  {
    var w := new Writer(buffer, 8 * u);
    ghost var v;
    var start;
    start, v := w.AddCompiledCode(heap, p, c, u);
    if w.errorOccurred {
      return 0;
    }
    at := w.writeOffset;
    if at + |table| > buffer.Length || |table| / 4 > 0xffff {
      return 0;
    }
    ghost var coded := buffer[..];
    var ok := w.Write(table);
    TableWritten(coded, buffer[..], u, c, at, table);
  }

  lemma TableWritten(coded: Memory, mem: Memory, u: nat, c: Code, at: nat, table: seq<Byte>)
    requires Stored(coded, u, c) && at == 8 * (u + Span(c)) && OnlyWithin(coded, mem, at, at + |table|)
    requires at + |table| <= |mem| && mem[at..at + |table|] == table
    ensures Filled(mem, u, c, at, table)
  {
    StoredFrame(coded, mem, u, c);
  }

  /** Patches the code area in place. */
  method PatchCode(buffer: array<Byte>, u: nat, at: nat, lits: seq<Entry>, ghost c: Code, ghost table: seq<Byte>)
    requires Filled(buffer[..], u, c, at, table) && Valid(c) && Covered(c, lits)
    modifies buffer
    ensures Filled(buffer[..], u, Patch(c, lits), at, table)
  {
    ghost var mem := buffer[..];
    SpanPositive(c);
    var start := 8 * u;
    ghost var result := PassPatches(mem, u, c, u + Span(c), start, at, lits);
    SetOffsets(buffer, start, at - start, lits, at);
    Repatched(mem, result, u, c, Patch(c, lits), at, table);
    PatchSpan(c, lits);
  }

  lemma Repatched(mem: Memory, mem': Memory, u: nat, c: Code, c': Code, at: nat, table: seq<Byte>)
    requires Filled(mem, u, c, at, table) && Stored(mem', u, c') && OnlyWithin(mem, mem', 8 * u, at)
    ensures Span(c') == Span(c) ==> Filled(mem', u, c', at, table)
  {
    TableKept(mem, mem', 8 * u, at, table);
  }

  lemma TableKept(mem: Memory, mem': Memory, lo: nat, at: nat, table: seq<Byte>)
    requires OnlyWithin(mem, mem', lo, at) && at + |table| <= |mem| && mem[at..at + |table|] == table
    ensures mem'[at..at + |table|] == table
  {
    assert mem'[at..at + |table|] == mem[at..at + |table|];
  }

  /** Saving returns the size of the snapshot, or 0 exactly if the buffer is too small or the code or the literal table too
      long for 16-bit offsets. */
  method Save(buffer: array<Byte>, heap: Heap, p: U16, isGlobal: bool, lits: seq<Entry>, table: seq<Byte>, ghost c: Code)
    returns (size: nat)
    requires InHeap(heap, p, c) && Valid(c) && Covered(c, lits) && |table| >= 8 && buffer.Length < 0x1_0000_0000
    modifies buffer
    ensures size != 0 <==> RoomFor(c, HEADER_UNITS, table, buffer.Length)
    ensures size != 0 ==> IsSnapshot(buffer[..], size, Patch(c, lits), isGlobal, table)
  {
    var u := HEADER_UNITS;
    var litTableOffset := WriteCode(buffer, heap, p, table, u, c);
    if litTableOffset == 0 {
      return 0;
    }
    PatchCode(buffer, u, litTableOffset, lits, c, table);
    ghost var coded := buffer[..];
    WriteHeader(buffer, litTableOffset, |table|, isGlobal);
    size := litTableOffset + |table|;
    HeaderWritten(coded, buffer[..], u, Patch(c, lits), litTableOffset, isGlobal, table);
  }

  lemma HeaderWritten(coded: Memory, mem: Memory, u: nat, c: Code, at: nat, isGlobal: bool, table: seq<Byte>)
    requires u == HEADER_UNITS && Filled(coded, u, c, at, table) && OnlyWithin(coded, mem, 0, 8 * u) && |mem| >= 16
    requires Get32(mem, 0) == VERSION && Get32(mem, 4) == at && Get32(mem, 8) == |table|
    requires Get32(mem, 12) == if isGlobal then 1 else 0
    ensures IsSnapshot(mem, at + |table|, c, isGlobal, table)
  {
    StoredFrame(coded, mem, u, c);
    TableKept(coded, mem, 0, at, table);
  }

  /** The checks that jerry_exec_snapshot makes before it loads anything. A literal table has a header of 8 bytes; literals
      is what the literal storage makes of a table that has one. */
  predicate Accepted(data: Memory, size: nat, literals: Option<seq<Entry>>)
    requires size <= |data|
  {
    size > 16 && Get32(data, 0) == VERSION && Get32(data, 4) < size && Get32(data, 8) >= 8 && literals.Some?
  }

  /** The checks of the header, and the loading. */
  method Exec(engine: Engine, data: Memory, size: nat, literals: Option<seq<Entry>>, ghost c: Code,
              ghost isGlobal: bool, ghost table: seq<Byte>)
    returns (r: Outcome)
    requires engine.Valid() && size <= |data|
    requires Accepted(data, size, literals) ==>
      IsSnapshot(data, size, c, isGlobal, table) && Valid(c) && Loadable(c, literals.value)
    modifies engine`objects, engine.memory
    ensures engine.Valid() && engine.memory.refused >= old(engine.memory.refused)
    ensures r.TypeError? <==> !Accepted(data, size, literals)
    ensures r == TypeError(InvalidVersion) <==> size > 16 && (Get32(data, 0) != VERSION || Get32(data, 4) >= size)
    ensures Grown(old(engine.objects), engine.objects)
    ensures r.Running? ==>
      InHeap(engine.objects - old(engine.objects).Keys, r.root, Loaded(c, literals.value)) && r.isGlobal == isGlobal
    ensures r.OutOfMemory? ==> engine.Exhausted(old(engine.memory.refused))
    ensures engine.memory.refused > old(engine.memory.refused) ==> r.OutOfMemory?
  {
    if size <= 16 {
      return TypeError(InvalidFormat);
    }
    if Get32(data, 0) != VERSION {
      return TypeError(InvalidVersion);
    }
    if Get32(data, 4) >= size {
      return TypeError(InvalidVersion);
    }
    if Get32(data, 8) < 8 || literals.None? {
      return TypeError(InvalidFormat);
    }
    var root := engine.Load(data, 8 * HEADER_UNITS, literals.value, c, HEADER_UNITS);
    return if root == 0 then OutOfMemory else Running(root, Get32(data, 12) != 0);
  }

  /** The checks of the header are not enough: they accept 24 bytes, a header and an empty literal table, without a tree. */
  lemma AcceptedIsNotSnapshot() returns (data: Memory)
    ensures |data| == 24 && Accepted(data, 24, Some([])) && Get32(data, 16) == 0 && Get32(data, 20) == 0
    ensures forall c, isGlobal, table | Valid(c) :: !IsSnapshot(data, 24, c, isGlobal, table)
  {
    data := [6, 0, 0, 0, 16, 0, 0, 0, 8, 0, 0, 0, 0, 0, 0, 0, 0, 0, 0, 0, 0, 0, 0, 0];
    forall c: Code | Valid(c)
      ensures Span(c) > 0
    {
      SpanPositive(c);
    }
  }

  lemma SavedIsReady(c: Code, saved: seq<Entry>, loaded: seq<Entry>)
    requires Valid(c) && Covered(c, saved) && Inverse(saved, loaded)
    ensures Valid(Patch(c, saved)) && Loadable(Patch(c, saved), loaded) && Loaded(Patch(c, saved), loaded) == Normal(c)
  {
    PatchKeepsValid(c, saved);
    PatchedLoadable(c, saved, loaded);
    RoundTrip(c, saved, loaded);
  }

  /** A tree that has been saved and loaded with an inverse literal table is the tree, normalised. */
  method SaveThenExec(buffer: array<Byte>, heap: Heap, p: U16, isGlobal: bool, saved: seq<Entry>, table: seq<Byte>,
                      engine: Engine, loaded: seq<Entry>, ghost c: Code)
    returns (size: nat, r: Outcome)
    requires InHeap(heap, p, c) && Valid(c) && Covered(c, saved) && |table| >= 8 && buffer.Length < 0x1_0000_0000
    requires Inverse(saved, loaded) && engine.Valid()
    modifies buffer, engine`objects, engine.memory
    ensures size != 0 <==> RoomFor(c, HEADER_UNITS, table, buffer.Length)
    ensures size != 0 ==> !r.TypeError?
    ensures size != 0 && r.OutOfMemory? ==> engine.Exhausted(old(engine.memory.refused))
    ensures engine.memory.refused > old(engine.memory.refused) ==> r.OutOfMemory?
    ensures size != 0 && r.Running? ==>
      InHeap(engine.objects - old(engine.objects).Keys, r.root, Normal(c)) && r.isGlobal == isGlobal
    ensures size != 0 && r.Running? ==> Restored(heap, p, engine.objects - old(engine.objects).Keys, r.root, c)
    ensures size != 0 && r.Running? && c.Function? ==>
      forall i | c.fields.registerEnd <= i < c.fields.constEnd ::
        engine.objects[r.root].block.slots[i] == heap[p].block.slots[i]
    ensures Grown(old(engine.objects), engine.objects)
  {
    r := OutOfMemory;
    size := Save(buffer, heap, p, isGlobal, saved, table, c);
    if size != 0 {
      SavedIsReady(c, saved, loaded);
      ghost var c' := Patch(c, saved);
      r := Exec(engine, buffer[..], size, Some(loaded), c', isGlobal, table);
      if r.Running? {
        NormalIsRestored(heap, p, engine.objects - old(engine.objects).Keys, r.root, c);
      }
    }
  }
}

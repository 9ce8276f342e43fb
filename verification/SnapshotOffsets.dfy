/** The linear pass over the saved blocks that replaces literal identifiers by offsets: jerry_snapshot_set_offsets. */
module SnapshotOffsets {
  import opened Bytes
  import opened ByteCode
  import opened CodeTree
  import opened Options
  import opened SnapshotSave

  datatype Entry = Entry(id: U16, offset: U16)

  /** The offset of the first entry for id. */
  function OffsetOf(lits: seq<Entry>, id: U16): U16
  {
    if lits == [] then 0 else if lits[0].id == id then lits[0].offset else OffsetOf(lits[1..], id)
  }

  predicate HasId(lits: seq<Entry>, id: U16) { exists e :: e in lits && e.id == id }

  /** It is that of the first entry, as a search from the start finds it. */
  lemma {:induction false} OffsetOfFirst(lits: seq<Entry>, id: U16, k: nat)
    requires k < |lits| && lits[k].id == id && forall j | 0 <= j < k :: lits[j].id != id
    ensures OffsetOf(lits, id) == lits[k].offset
  {
    if k > 0 {
      OffsetOfFirst(lits[1..], id, k - 1);
    }
  }

  /** The arguments of a function that needs its arguments object, and is not strict, are literals as well. */
  predicate KeepsArguments(f: Fields) { ArgumentsNeeded(f.flags) && !Strict(f.flags) }

  predicate IsLiteral(f: Fields, i: nat) { f.registerEnd <= i || (KeepsArguments(f) && i < f.argumentEnd) }

  /** What becomes of literal slot i: an offset, or nothing for a register. */
  function PatchWord(f: Fields, lits: seq<Entry>, i: nat, v: U16): U16
  {
    if IsLiteral(f, i) && v != 0 then OffsetOf(lits, v) else 0
  }

  function PatchWords(f: Fields, lits: seq<Entry>, words: seq<U16>): (r: seq<U16>)
    ensures |r| == |words| && forall i | 0 <= i < |words| :: r[i] == PatchWord(f, lits, i, words[i])
  {
    if words == [] then []
    else
      var n := |words| - 1;
      PatchWords(f, lits, words[..n]) + [PatchWord(f, lits, n, words[n])]
  }

  /** The tree as it stands in a finished snapshot. */
  function Patch(c: Code, lits: seq<Entry>): Code
    decreases c
  {
    match c
    case Regexp(_, _) => c
    case Function(fields, consts, kids, code) =>
      Function(fields.(refs := 1), PatchWords(fields, lits, consts), PatchKids(c, lits, |kids|), code)
  }

  function PatchKids(c: Code, lits: seq<Entry>, n: nat): (r: seq<Kid>)
    requires c.Function? && n <= |c.kids|
    ensures |r| == n
    ensures forall j | 0 <= j < n ::
      r[j] == if c.kids[j].Itself? then Itself else Sub(Patch(c.kids[j].sub, lits))
    decreases c, n
  {
    if n == 0 then []
    else PatchKids(c, lits, n - 1) + [if c.kids[n - 1].Itself? then Itself else Sub(Patch(c.kids[n - 1].sub, lits))]
  }

  lemma {:induction false} PatchSpan(c: Code, lits: seq<Entry>)
    ensures Span(Patch(c, lits)) == Span(c)
    decreases c
  {
    if c.Function? {
      PatchSpanOf(c, lits, |c.kids|);
    }
  }

  lemma {:induction false} PatchSpanOf(c: Code, lits: seq<Entry>, n: nat)
    requires c.Function? && n <= |c.kids|
    ensures SpanOf(Patch(c, lits), n) == SpanOf(c, n)
    decreases c, n
  {
    if n > 0 {
      PatchSpanOf(c, lits, n - 1);
      if c.kids[n - 1].Sub? {
        PatchSpan(c.kids[n - 1].sub, lits);
      }
    }
  }

  // ---------------------------------------------------------------- the pass over memory

  /** The first n literal slots at address base patched. */
  function PatchSlots(mem: Memory, base: nat, f: Fields, lits: seq<Entry>, n: nat): (r: Memory)
    requires base + 2 * n <= |mem|
    ensures |r| == |mem|
  {
    if n == 0 then mem
    else
      var x := base + 2 * (n - 1);
      Put16(PatchSlots(mem, base, f, lits, n - 1), x, PatchWord(f, lits, n - 1, Get16(mem, x)))
  }

  lemma {:induction false} SlotsPatchedOnly(mem: Memory, base: nat, f: Fields, lits: seq<Entry>, n: nat)
    requires base + 2 * n <= |mem|
    ensures var r := PatchSlots(mem, base, f, lits, n);
      && OnlyWithin(mem, r, base, base + 2 * n)
      && forall i: nat | i < n :: Get16(r, base + 2 * i) == PatchWord(f, lits, i, Get16(mem, base + 2 * i))
  {
    if n > 0 {
      SlotsPatchedOnly(mem, base, f, lits, n - 1);
    }
  }

  /** One block at address at. */
  function PatchAt(mem: Memory, at: nat, lits: seq<Entry>): (r: Memory)
    requires BlockInRange(mem, at)
    ensures |r| == |mem|
  {
    if !IsFunction(Get16(mem, at + 4)) then mem
    else
      var f := FieldsAt(mem, at);
      Put16(PatchSlots(mem, at + HeaderSize(f.flags), f, lits, f.constEnd), at + 2, 1)
  }

  /** What the pass makes of the slots of one function block at address at, said with the bits and offsets of its header:
      from registerEnd on, and below argumentEnd with bit 4 set and bit 3 clear, an identifier becomes its offset. */
  lemma BlockPatchedSlots(mem: Memory, at: nat, lits: seq<Entry>, i: nat)
    requires BlockInRange(mem, at) && Get16(mem, at + 4) % 2 == 1 && i < FieldsAt(mem, at).constEnd
    ensures var flags, f := Get16(mem, at + 4), FieldsAt(mem, at);
      var x := at + (if flags / 4 % 2 == 1 then 18 else 12) + 2 * i;
      var kept := f.registerEnd <= i || (flags / 16 % 2 == 1 && flags / 8 % 2 == 0 && i < f.argumentEnd);
      && x + 2 <= |mem|
      && Get16(PatchAt(mem, at, lits), x) == (if kept && Get16(mem, x) != 0 then OffsetOf(lits, Get16(mem, x)) else 0)
      && Get16(PatchAt(mem, at, lits), at + 2) == 1
  {
    var f := FieldsAt(mem, at);
    SlotsPatchedOnly(mem, at + HeaderSize(f.flags), f, lits, f.constEnd);
  }

  predicate BlockInRange(mem: Memory, at: nat)
  {
    && at + 6 <= |mem|
    && (IsFunction(Get16(mem, at + 4)) ==>
         && at + HeaderSize(Get16(mem, at + 4)) <= |mem|
         && at + HeaderSize(Get16(mem, at + 4)) + 2 * FieldsAt(mem, at).constEnd <= |mem|)
  }

  /** Literal slot i of those at address base is empty or holds an identifier of the table. */
  predicate SlotFound(mem: Memory, base: nat, lits: seq<Entry>, i: nat)
  {
    base + 2 * i + 2 <= |mem| && (Get16(mem, base + 2 * i) == 0 || HasId(lits, Get16(mem, base + 2 * i)))
  }

  ghost predicate LiteralsFound(mem: Memory, at: nat, lits: seq<Entry>)
    requires BlockInRange(mem, at) && IsFunction(Get16(mem, at + 4))
  {
    var f := FieldsAt(mem, at);
    && f.argumentEnd <= f.registerEnd <= f.constEnd
    && forall i: nat | i < f.constEnd && IsLiteral(f, i) :: SlotFound(mem, at + HeaderSize(f.flags), lits, i)
  }

  /** The block at address at is one that the pass can patch and step over. */
  ghost predicate Passable(mem: Memory, at: nat, stop: nat, lits: seq<Entry>)
  {
    && BlockInRange(mem, at)
    && Get16(mem, at) > 0
    && at + 8 * Get16(mem, at) <= stop
    && (IsFunction(Get16(mem, at + 4)) ==> LiteralsFound(mem, at, lits))
  }

  /** The pass from address at to address stop; None if it does not stop there. */
  ghost function Pass(mem: Memory, at: nat, stop: nat, lits: seq<Entry>): Option<Memory>
    decreases stop - at
  {
    if at == stop then Some(mem)
    else if !Passable(mem, at, stop, lits) then None
    else Pass(PatchAt(mem, at, lits), at + 8 * Get16(mem, at), stop, lits)
  }

  // ---------------------------------------------------------------- the pass over a tree

  /** Every literal of the tree is in the table. */
  ghost predicate Covered(c: Code, lits: seq<Entry>)
    decreases c
  {
    c.Function? ==>
      && (forall i | 0 <= i < |c.consts| && IsLiteral(c.fields, i) :: c.consts[i] == 0 || HasId(lits, c.consts[i]))
      && forall j | 0 <= j < |c.kids| && c.kids[j].Sub? :: Covered(c.kids[j].sub, lits)
  }

  /** Replacing the first n words of a stored block. */
  lemma WordsReplaced(mem: Memory, mem': Memory, at: nat, b: Block, base: nat, n: nat, slots: seq<U16>)
    requires BlockAt(mem, at, b) && base == at + HeaderSize(b.fields.flags) && n <= |b.slots| == |slots|
    requires OnlyWithin(mem, mem', base, base + 2 * n)
    requires forall i: nat | i < n :: Get16(mem', base + 2 * i) == slots[i]
    requires forall i: nat | n <= i < |slots| :: slots[i] == b.slots[i]
    ensures BlockAt(mem', at, b.(slots := slots))
  {
    forall i: nat | i < |slots|
      ensures Get16(mem', base + 2 * i) == slots[i]
    {
      assert Get16(mem, base + 2 * i) == b.slots[i];
    }
    SlotsReplaced(mem, mem', at, b, slots);
  }

  lemma WordsOfSlots(mem: Memory, at: nat, b: Block, lits: seq<Entry>, base: nat, n: nat, words: seq<U16>)
    requires BlockAt(mem, at, b) && base == at + HeaderSize(b.fields.flags) && n <= |b.slots|
    requires words == PatchWords(b.fields, lits, b.slots[..n])
    ensures base + 2 * |b.slots| <= |mem|
    ensures forall i: nat | i < n :: PatchWord(b.fields, lits, i, Get16(mem, base + 2 * i)) == words[i]
  {
    forall i: nat | i < n
      ensures PatchWord(b.fields, lits, i, Get16(mem, base + 2 * i)) == words[i]
    {
      assert Get16(mem, base + 2 * i) == b.slots[i] == b.slots[..n][i];
    }
  }

  lemma SlotsPatched(mem: Memory, at: nat, b: Block, lits: seq<Entry>, base: nat, n: nat, slots: seq<U16>)
    requires BlockAt(mem, at, b) && base == at + HeaderSize(b.fields.flags) && n <= |b.slots|
    requires slots == PatchWords(b.fields, lits, b.slots[..n]) + b.slots[n..]
    ensures BlockAt(PatchSlots(mem, base, b.fields, lits, n), at, b.(slots := slots))
  {
    var words := PatchWords(b.fields, lits, b.slots[..n]);
    WordsOfSlots(mem, at, b, lits, base, n, words);
    assert forall i: nat | i < n :: slots[i] == words[i];
    PatchedFits(mem, at, b, lits, base, n, slots);
  }

  lemma PatchedFits(mem: Memory, at: nat, b: Block, lits: seq<Entry>, base: nat, n: nat, slots: seq<U16>)
    requires BlockAt(mem, at, b) && base == at + HeaderSize(b.fields.flags) && n <= |b.slots| == |slots|
    requires forall i: nat | i < n :: PatchWord(b.fields, lits, i, Get16(mem, base + 2 * i)) == slots[i]
    requires forall i: nat | n <= i < |slots| :: slots[i] == b.slots[i]
    ensures BlockAt(PatchSlots(mem, base, b.fields, lits, n), at, b.(slots := slots))
  {
    SlotsPatchedOnly(mem, base, b.fields, lits, n);
    WordsReplaced(mem, PatchSlots(mem, base, b.fields, lits, n), at, b, base, n, slots);
  }

  lemma PatchedWithin(mem: Memory, at: nat, b: Block, lits: seq<Entry>) returns (base: nat, patched: Memory)
    requires BlockAt(mem, at, b)
    ensures BlockInRange(mem, at) && base == at + HeaderSize(b.fields.flags) && at + 8 * b.fields.size <= |mem|
    ensures base + 2 * b.fields.constEnd <= |mem|
    ensures patched == PatchSlots(mem, base, b.fields, lits, b.fields.constEnd)
    ensures PatchAt(mem, at, lits) == Put16(patched, at + 2, 1)
    ensures OnlyWithin(mem, PatchAt(mem, at, lits), at, at + 8 * b.fields.size)
  {
    base := at + HeaderSize(b.fields.flags);
    patched := PatchSlots(mem, base, b.fields, lits, b.fields.constEnd);
    SlotsPatchedOnly(mem, base, b.fields, lits, b.fields.constEnd);
  }

  /** Patching a block that stands in memory. */
  lemma BlockPatched(mem: Memory, at: nat, b: Block, lits: seq<Entry>, slots: seq<U16>)
    requires BlockAt(mem, at, b)
    requires slots == PatchWords(b.fields, lits, b.slots[..b.fields.constEnd]) + b.slots[b.fields.constEnd..]
    ensures BlockInRange(mem, at) && at + 8 * b.fields.size <= |mem|
    ensures BlockAt(PatchAt(mem, at, lits), at, Block(b.fields.(refs := 1), slots, b.code))
    ensures OnlyWithin(mem, PatchAt(mem, at, lits), at, at + 8 * b.fields.size)
  {
    var base, patched := PatchedWithin(mem, at, b, lits);
    SlotsPatched(mem, at, b, lits, base, b.fields.constEnd, slots);
    RefsWrite(patched, at, b.(slots := slots), 1);
  }

  /** Patching the root of a stored function. */
  lemma RootPatched(mem: Memory, u: nat, c: Code, b: Block, lits: seq<Entry>) returns (b': Block)
    requires c.Function? && ValidFunction(c) && FunctionAt(mem, u, c, b)
    ensures BlockInRange(mem, 8 * u)
    ensures FunctionAt(PatchAt(mem, 8 * u, lits), u, Patch(c, lits), b')
    ensures |b'.slots| == |b.slots| && forall i | |c.consts| <= i < |b.slots| :: b'.slots[i] == b.slots[i]
    ensures OnlyWithin(mem, PatchAt(mem, 8 * u, lits), 8 * u, 8 * (u + c.fields.size))
  {
    var consts, n := PatchWords(c.fields, lits, c.consts), |c.consts|;
    var slots := consts + b.slots[n..];
    BlockPatched(mem, 8 * u, b, lits, slots);
    b' := Block(c.fields.(refs := 1), slots, b.code);
    assert b'.slots[..n] == consts;
  }

  /** rest stands for the outcome of the rest of the pass, of which only this is known: a step does not change it. */
  ghost predicate Steps(rest: (Memory, nat) -> Option<Memory>, stop: nat, lits: seq<Entry>)
  {
    forall mem, at: nat {:trigger Passable(mem, at, stop, lits)} | Passable(mem, at, stop, lits) ::
      rest(mem, at) == rest(PatchAt(mem, at, lits), at + 8 * Get16(mem, at))
  }

  lemma StepOver(mem: Memory, at: nat, mem': Memory, at': nat, stop: nat, lits: seq<Entry>,
                 rest: (Memory, nat) -> Option<Memory>)
    requires Steps(rest, stop, lits) && Passable(mem, at, stop, lits)
    requires mem' == PatchAt(mem, at, lits) && at' == at + 8 * Get16(mem, at)
    ensures rest(mem, at) == rest(mem', at')
  {
  }

  lemma RegexpPassable(mem: Memory, at: nat, flags: U16, pattern: seq<Byte>, stop: nat, lits: seq<Entry>)
    requires RegexpAt(mem, at, flags, pattern) && !IsFunction(flags) && RegexpUnits(pattern) < 0x1_0000
    requires at + 8 * RegexpUnits(pattern) <= stop
    ensures Passable(mem, at, stop, lits) && Get16(mem, at) == RegexpUnits(pattern) && PatchAt(mem, at, lits) == mem
  {
  }

  lemma RegexpPassed(mem: Memory, u: nat, c: Code, w: nat, stop: nat, lits: seq<Entry>,
                     rest: (Memory, nat) -> Option<Memory>)
    requires Steps(rest, stop, lits)
    requires c.Regexp? && Stored(mem, u, c) && Valid(c) && w == u + Span(c) && 8 * w <= stop
    ensures rest(mem, 8 * u) == rest(mem, 8 * w)
  {
    RegexpPassable(mem, 8 * u, c.flags, c.pattern, stop, lits);
    StepOver(mem, 8 * u, mem, 8 * w, stop, lits, rest);
  }

  lemma RootLiterals(mem: Memory, u: nat, c: Code, b: Block, lits: seq<Entry>)
    requires c.Function? && ValidFunction(c) && Covered(c, lits) && FunctionAt(mem, u, c, b) && BlockInRange(mem, 8 * u)
    ensures LiteralsFound(mem, 8 * u, lits)
  {
    var f, base := c.fields, 8 * u + HeaderSize(c.fields.flags);
    forall i: nat | i < f.constEnd && IsLiteral(f, i)
      ensures SlotFound(mem, base, lits, i)
    {
      assert Get16(mem, base + 2 * i) == b.slots[i] == c.consts[i];
    }
  }

  lemma PatchedUnits(c: Code, u: nat, lits: seq<Entry>, n: nat)
    requires c.Function? && n <= |c.kids|
    ensures KidUnit(Patch(c, lits), u, n) == KidUnit(c, u, n)
  {
    PatchSpanOf(c, lits, n);
  }

  lemma PatchedLinks(c: Code, u: nat, lits: seq<Entry>, slots: seq<U16>, slots': seq<U16>)
    requires c.Function? && |slots| == |slots'| == |c.consts| + |c.kids| && KidsLinked(c, u, slots, |c.kids|)
    requires forall i | |c.consts| <= i < |slots| :: slots'[i] == slots[i]
    ensures KidsLinked(Patch(c, lits), u, slots', |c.kids|)
  {
    var c' := Patch(c, lits);
    forall i | |c.consts| <= i < |slots|
      ensures slots'[i] == KidSlot(c', u, i - |c.consts|)
    {
      PatchedUnits(c, u, lits, i - |c.consts|);
    }
  }

  /** The first step of the pass over a function: its own block. */
  lemma RootPassed(mem: Memory, u: nat, c: Code, b: Block, v: nat, stop: nat, lits: seq<Entry>,
                   rest: (Memory, nat) -> Option<Memory>)
    returns (mem': Memory, b': Block)
    requires Steps(rest, stop, lits)
    requires c.Function? && ValidFunction(c) && Covered(c, lits) && FunctionAt(mem, u, c, b)
    requires KidsLinked(c, u, b.slots, |c.kids|) && v == u + c.fields.size && 8 * v <= stop
    ensures FunctionAt(mem', u, Patch(c, lits), b') && KidsLinked(Patch(c, lits), u, b'.slots, |c.kids|)
    ensures OnlyWithin(mem, mem', 8 * u, 8 * v)
    ensures rest(mem, 8 * u) == rest(mem', 8 * v)
  {
    b' := RootPatched(mem, u, c, b, lits);
    mem' := PatchAt(mem, 8 * u, lits);
    PatchedLinks(c, u, lits, b.slots, b'.slots);
    RootLiterals(mem, u, c, b, lits);
    StepOver(mem, 8 * u, mem', 8 * v, stop, lits, rest);
  }

  /** The linear pass patches a stored tree as a whole. */
  lemma {:induction false} PassTree(mem: Memory, u: nat, c: Code, w: nat, stop: nat, lits: seq<Entry>,
                                    rest: (Memory, nat) -> Option<Memory>)
    returns (mem': Memory)
    requires Steps(rest, stop, lits)
    requires Stored(mem, u, c) && Valid(c) && Covered(c, lits) && w == u + Span(c) && 8 * w <= stop
    ensures Stored(mem', u, Patch(c, lits)) && OnlyWithin(mem, mem', 8 * u, 8 * w)
    ensures rest(mem, 8 * u) == rest(mem', 8 * w)
    decreases c
  {
    if c.Regexp? {
      mem' := mem;
      RegexpPassed(mem, u, c, w, stop, lits, rest);
    } else {
      mem' := PassFunction(mem, u, c, w, stop, lits, rest);
    }
  }

  lemma {:induction false} PassFunction(mem: Memory, u: nat, c: Code, w: nat, stop: nat, lits: seq<Entry>,
                                        rest: (Memory, nat) -> Option<Memory>)
    returns (mem': Memory)
    requires Steps(rest, stop, lits)
    requires c.Function? && Stored(mem, u, c) && Valid(c) && Covered(c, lits) && w == u + Span(c) && 8 * w <= stop
    ensures Stored(mem', u, Patch(c, lits)) && OnlyWithin(mem, mem', 8 * u, 8 * w)
    ensures rest(mem, 8 * u) == rest(mem', 8 * w)
    decreases c, |c.kids| + 1
  {
    var b := TakeApart(mem, u, c);
    var c', n, v := Patch(c, lits), |c.kids|, u + c.fields.size;
    SpanMonotone(c, 0, n);
    var patched, b' := RootPassed(mem, u, c, b, v, stop, lits, rest);
    KidsFrame(mem, patched, u, c, n);
    KidsAreReady(patched, u, c, lits);
    mem' := PassKids(patched, u, c, n, v, w, stop, lits, rest);
    FunctionFrame(patched, mem', u, c', b', v);
    PutTogether(mem', u, c', b');
  }

  /** Child j of c can be passed on its own: it takes the units from x to w. */
  ghost predicate KidReady(mem: Memory, kid: Kid, x: nat, w: nat, lits: seq<Entry>)
  {
    if kid.Itself? then w == x else Stored(mem, x, kid.sub) && Valid(kid.sub) && Covered(kid.sub, lits) && w == x + Span(kid.sub)
  }

  ghost predicate KidsReady(mem: Memory, u: nat, c: Code, n: nat, lits: seq<Entry>)
    requires c.Function? && n <= |c.kids|
  {
    forall j | 0 <= j < n :: KidReady(mem, c.kids[j], KidUnit(c, u, j), KidUnit(c, u, j + 1), lits)
  }

  lemma KidOf(mem: Memory, u: nat, c: Code, j: nat, x: nat, w: nat, lits: seq<Entry>)
    requires c.Function? && j < |c.kids| && KidsStored(mem, u, c, |c.kids|) && Valid(c) && Covered(c, lits)
    requires x == KidUnit(c, u, j) && if c.kids[j].Itself? then w == x else w == x + Span(c.kids[j].sub)
    ensures KidReady(mem, c.kids[j], x, w, lits)
  {
  }

  lemma KidUnits(c: Code, u: nat, j: nat)
    requires c.Function? && j < |c.kids|
    ensures u + c.fields.size <= KidUnit(c, u, j) <= KidUnit(c, u, j + 1)
    ensures KidUnit(c, u, j + 1) == KidUnit(c, u, j) + if c.kids[j].Itself? then 0 else Span(c.kids[j].sub)
  {
    SpanMonotone(c, 0, j);
    SpanMonotone(c, j, j + 1);
  }

  lemma KidsAreReady(mem: Memory, u: nat, c: Code, lits: seq<Entry>)
    requires c.Function? && KidsStored(mem, u, c, |c.kids|) && Valid(c) && Covered(c, lits)
    ensures KidsReady(mem, u, c, |c.kids|, lits)
  {
    forall j | 0 <= j < |c.kids|
      ensures KidReady(mem, c.kids[j], KidUnit(c, u, j), KidUnit(c, u, j + 1), lits)
    {
      KidUnits(c, u, j);
      KidOf(mem, u, c, j, KidUnit(c, u, j), KidUnit(c, u, j + 1), lits);
    }
  }

  lemma {:induction false} PassKids(mem: Memory, u: nat, c: Code, n: nat, v: nat, w: nat, stop: nat, lits: seq<Entry>,
                                    rest: (Memory, nat) -> Option<Memory>)
    returns (mem': Memory)
    requires Steps(rest, stop, lits)
    requires c.Function? && n <= |c.kids| && KidsReady(mem, u, c, n, lits)
    requires v == u + c.fields.size && w == KidUnit(c, u, n) && 8 * w <= stop
    ensures KidsStored(mem', u, Patch(c, lits), n) && OnlyWithin(mem, mem', 8 * v, 8 * w)
    ensures rest(mem, 8 * v) == rest(mem', 8 * w)
    decreases c, n
  {
    if n == 0 {
      mem' := mem;
    } else {
      var j := n - 1;
      var x := KidUnit(c, u, j);
      KidUnits(c, u, j);
      var before := PassKids(mem, u, c, j, v, x, stop, lits, rest);
      mem' := PassKid(mem, before, u, c, j, v, x, w, stop, lits, rest);
    }
  }

  lemma PassKid(mem: Memory, before: Memory, u: nat, c: Code, j: nat, v: nat, x: nat, w: nat, stop: nat, lits: seq<Entry>,
                rest: (Memory, nat) -> Option<Memory>)
    returns (mem': Memory)
    requires Steps(rest, stop, lits)
    requires c.Function? && j < |c.kids| && KidReady(mem, c.kids[j], x, w, lits) && 8 * w <= stop
    requires v == u + c.fields.size <= x == KidUnit(c, u, j)
    requires KidsStored(before, u, Patch(c, lits), j) && OnlyWithin(mem, before, 8 * v, 8 * x)
    ensures KidsStored(mem', u, Patch(c, lits), j + 1) && OnlyWithin(mem, mem', 8 * v, 8 * w)
    ensures rest(before, 8 * x) == rest(mem', 8 * w)
    decreases c, 0
  {
    var c' := Patch(c, lits);
    PatchedUnits(c, u, lits, j);
    if c.kids[j].Itself? {
      mem' := before;
    } else {
      var kid := c.kids[j].sub;
      StoredFrame(mem, before, x, kid);
      mem' := PassTree(before, x, kid, w, stop, lits, rest);
      KidsFrame(before, mem', u, c', j);
    }
    StoreOne(mem', u, c', j, x);
  }

  lemma PassStep(mem: Memory, at: nat, stop: nat, lits: seq<Entry>)
    requires Passable(mem, at, stop, lits)
    ensures Pass(mem, at, stop, lits) == Pass(PatchAt(mem, at, lits), at + 8 * Get16(mem, at), stop, lits)
  {
  }

  lemma PassSteps(stop: nat, lits: seq<Entry>) returns (rest: (Memory, nat) -> Option<Memory>)
    ensures Steps(rest, stop, lits)
    ensures forall mem, at: nat :: rest(mem, at) == Pass(mem, at, stop, lits)
  {
    rest := (mem, at: nat) => Pass(mem, at, stop, lits);
    forall mem, at: nat | Passable(mem, at, stop, lits)
      ensures rest(mem, at) == rest(PatchAt(mem, at, lits), at + 8 * Get16(mem, at))
    {
      PassStep(mem, at, stop, lits);
    }
  }

  /** The outcome of the pass over a stored tree. */
  lemma PassPatches(mem: Memory, u: nat, c: Code, w: nat, start: nat, stop: nat, lits: seq<Entry>) returns (r: Memory)
    requires Stored(mem, u, c) && Valid(c) && Covered(c, lits) && w == u + Span(c) && start == 8 * u && stop == 8 * w
    ensures Pass(mem, start, stop, lits) == Some(r)
    ensures Stored(r, u, Patch(c, lits)) && OnlyWithin(mem, r, start, stop)
  {
    var rest := PassSteps(stop, lits);
    r := PassTree(mem, u, c, w, stop, lits, rest);
    assert rest(r, stop) == Some(r);
    assert rest(mem, start) == Pass(mem, start, stop, lits);
  }

  // ---------------------------------------------------------------- in place

  method FindOffset(lits: seq<Entry>, id: U16) returns (offset: U16)
    requires HasId(lits, id)
    ensures offset == OffsetOf(lits, id)
  {
    var k := 0;
    while k < |lits| && lits[k].id != id
      invariant 0 <= k <= |lits| && HasId(lits[k..], id) && OffsetOf(lits[k..], id) == OffsetOf(lits, id)
      decreases |lits| - k
    {
      assert lits[k..][1..] == lits[k + 1..];
      k := k + 1;
    }
    offset := lits[k].offset;
  }

  lemma PutSame(mem: Memory, x: nat)
    requires x + 2 <= |mem|
    ensures Put16(mem, x, Get16(mem, x)) == mem
  {
  }

  lemma NextSlot(was: Memory, base: nat, f: Fields, lits: seq<Entry>, i: nat, mem: Memory)
    requires base + 2 * i + 2 <= |was| && mem == PatchSlots(was, base, f, lits, i)
    ensures Get16(mem, base + 2 * i) == Get16(was, base + 2 * i)
    ensures Put16(mem, base + 2 * i, PatchWord(f, lits, i, Get16(was, base + 2 * i))) == PatchSlots(was, base, f, lits, i + 1)
  {
    SlotsPatchedOnly(was, base, f, lits, i);
  }

  /** One literal slot. */
  method MapLiteral(buffer: array<Byte>, x: nat, lits: seq<Entry>)
    requires x + 2 <= buffer.Length && (Get16(buffer[..], x) == 0 || HasId(lits, Get16(buffer[..], x)))
    modifies buffer
    ensures var id := Get16(old(buffer[..]), x);
      buffer[..] == Put16(old(buffer[..]), x, if id != 0 then OffsetOf(lits, id) else 0)
  {
    var id := Get16(buffer[..], x);
    if id != 0 {
      var offset := FindOffset(lits, id);
      Store16(buffer, x, offset);
    } else {
      PutSame(buffer[..], x);
    }
  }

  /** The literal slots from lo up to hi, after those below lo have been patched. */
  method MapLiterals(buffer: array<Byte>, base: nat, lits: seq<Entry>, lo: nat, hi: nat, ghost f: Fields, ghost was: Memory)
    requires lo <= hi && base + 2 * hi <= buffer.Length == |was|
    requires forall i: nat | lo <= i < hi :: IsLiteral(f, i) && SlotFound(was, base, lits, i)
    requires buffer[..] == PatchSlots(was, base, f, lits, lo)
    modifies buffer
    ensures buffer[..] == PatchSlots(was, base, f, lits, hi)
  {
    for i := lo to hi
      invariant buffer[..] == PatchSlots(was, base, f, lits, i)
    {
      NextSlot(was, base, f, lits, i, buffer[..]);
      assert IsLiteral(f, i) && SlotFound(was, base, lits, i);
      MapLiteral(buffer, base + 2 * i, lits);
    }
  }

  method ClearRegisters(buffer: array<Byte>, base: nat, lo: nat, hi: nat, ghost lits: seq<Entry>, ghost f: Fields, ghost was: Memory)
    requires lo <= hi && base + 2 * hi <= buffer.Length == |was|
    requires forall i: nat | lo <= i < hi :: !IsLiteral(f, i)
    requires buffer[..] == PatchSlots(was, base, f, lits, lo)
    modifies buffer
    ensures buffer[..] == PatchSlots(was, base, f, lits, hi)
  {
    for i := lo to hi
      invariant buffer[..] == PatchSlots(was, base, f, lits, i)
    {
      NextSlot(was, base, f, lits, i, buffer[..]);
      assert !IsLiteral(f, i);
      Store16(buffer, base + 2 * i, 0);
    }
  }

  /** All literal slots of a block with header f: arguments and constants are mapped, registers cleared. */
  method PatchLiterals(buffer: array<Byte>, base: nat, f: Fields, lits: seq<Entry>)
    requires base + 2 * f.constEnd <= buffer.Length && f.argumentEnd <= f.registerEnd <= f.constEnd
    requires forall i: nat | i < f.constEnd && IsLiteral(f, i) :: SlotFound(buffer[..], base, lits, i)
    modifies buffer
    ensures buffer[..] == PatchSlots(old(buffer[..]), base, f, lits, f.constEnd)
  {
    ghost var was := buffer[..];
    assert was == PatchSlots(was, base, f, lits, 0);
    var clearStart := 0;
    if ArgumentsNeeded(f.flags) && !Strict(f.flags) {
      MapLiterals(buffer, base, lits, 0, f.argumentEnd, f, was);
      clearStart := f.argumentEnd;
    }
    ClearRegisters(buffer, base, clearStart, f.registerEnd, lits, f, was);
    MapLiterals(buffer, base, lits, f.registerEnd, f.constEnd, f, was);
  }

  /** One function block. */
  method PatchFunction(buffer: array<Byte>, at: nat, lits: seq<Entry>)
    requires BlockInRange(buffer[..], at) && IsFunction(Get16(buffer[..], at + 4)) && LiteralsFound(buffer[..], at, lits)
    modifies buffer
    ensures buffer[..] == PatchAt(old(buffer[..]), at, lits)
  {
    var f := FieldsAt(buffer[..], at);
    PatchLiterals(buffer, at + HeaderSize(f.flags), f, lits);
    Store16(buffer, at + 2, 1);
  }

  /** The whole code area, size bytes from start up to stop. */
  method SetOffsets(buffer: array<Byte>, start: nat, size: nat, lits: seq<Entry>, ghost stop: nat)
    requires size > 0 && start + size == stop && Pass(buffer[..], start, stop, lits).Some?
    modifies buffer
    ensures Some(buffer[..]) == old(Pass(buffer[..], start, stop, lits))
  {
    ghost var outcome := Pass(buffer[..], start, stop, lits);
    var at, left := start, size;
    while left > 0
      invariant at + left == stop && Pass(buffer[..], at, stop, lits) == outcome
    {
      var codeSize := 8 * Get16(buffer[..], at);
      if IsFunction(Get16(buffer[..], at + 4)) {
        PatchFunction(buffer, at, lits);
      }
      at, left := at + codeSize, left - codeSize;
    }
  }
}

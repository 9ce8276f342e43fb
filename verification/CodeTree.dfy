/** Compiled code as a tree: what it means to stand in the engine's heap, and to stand in a snapshot. */
module CodeTree {
  import opened Bytes
  import opened ByteCode

  /** consts are the literal slots below constEnd; the slots above it refer to the function itself or to other code. */
  datatype Code =
    | Regexp(flags: U16, pattern: seq<Byte>)
    | Function(fields: Fields, consts: seq<U16>, kids: seq<Kid>, code: seq<Byte>)

  datatype Kid = Itself | Sub(sub: Code)

  /** A heap object. A compiled regular expression is kept as its source. */
  datatype Object = Compiled(flags: U16, pattern: seq<Byte>) | Bytecode(block: Block)
  type Heap = map<U16, Object>

  predicate ValidFunction(c: Code)
    requires c.Function?
  {
    && IsFunction(c.fields.flags)
    && (Wide(c.fields.flags) || Small(c.fields))
    && c.fields.argumentEnd <= c.fields.registerEnd <= c.fields.constEnd == |c.consts|
    && c.fields.literalEnd == |c.consts| + |c.kids|
    && 8 * c.fields.size == HeaderSize(c.fields.flags) + 2 * c.fields.literalEnd + |c.code|
  }

  /** What the parser and the regular expression compiler guarantee; a longer literal is a syntax error. */
  predicate Valid(c: Code)
    decreases c
  {
    match c
    case Regexp(flags, pattern) => !IsFunction(flags) && |pattern| <= 0xffff
    case Function(_, _, kids, _) =>
      ValidFunction(c) && forall j | 0 <= j < |kids| && kids[j].Sub? :: Valid(kids[j].sub)
  }

  // ---------------------------------------------------------------- in the heap

  /** Object p of the heap is the root of c. Nothing below a function refers back to it except its own slots. */
  ghost predicate InHeap(heap: Heap, p: U16, c: Code)
    decreases c
  {
    && p != 0 && p in heap
    && match c
       case Regexp(flags, pattern) => heap[p] == Compiled(flags, pattern)
       case Function(fields, consts, kids, code) =>
         && heap[p].Bytecode?
         && var b := heap[p].block;
         && b.fields == fields && b.code == code && |b.slots| == |consts| + |kids| && b.slots[..|consts|] == consts
         && (forall i | |consts| <= i < |b.slots| ::
              var kid := kids[i - |consts|];
              if kid.Itself? then b.slots[i] == p else b.slots[i] != p && InHeap(heap, b.slots[i], kid.sub))
  }

  lemma {:induction false} HeapGrows(heap: Heap, heap': Heap, p: U16, c: Code)
    requires InHeap(heap, p, c) && forall q | q in heap :: q in heap' && heap'[q] == heap[q]
    ensures InHeap(heap', p, c)
    decreases c
  {
    if c.Function? {
      var slots, n := heap[p].block.slots, |c.consts|;
      forall i | n <= i < |slots| && c.kids[i - n].Sub?
        ensures InHeap(heap', slots[i], c.kids[i - n].sub)
      {
        HeapGrows(heap, heap', slots[i], c.kids[i - n].sub);
      }
    }
  }

  // ---------------------------------------------------------------- in a snapshot

  /** How many units of 8 bytes a tree takes, and the first j children of a function. */
  function Span(c: Code): nat
    decreases c
  {
    match c
    case Regexp(_, pattern) => RegexpUnits(pattern)
    case Function(fields, _, kids, _) => fields.size + SpanOf(c, |kids|)
  }

  function SpanOf(c: Code, j: nat): nat
    requires c.Function? && j <= |c.kids|
    decreases c, j
  {
    if j == 0 then 0
    else SpanOf(c, j - 1) + if c.kids[j - 1].Itself? then 0 else Span(c.kids[j - 1].sub)
  }

  /** Where the subtree of child j starts, in units, for a function that starts at unit u. */
  function KidUnit(c: Code, u: nat, j: nat): nat
    requires c.Function? && j <= |c.kids|
  {
    u + c.fields.size + SpanOf(c, j)
  }

  /** The value of the slot for child j. */
  function KidSlot(c: Code, u: nat, j: nat): nat
    requires c.Function? && j < |c.kids|
  {
    if c.kids[j].Itself? then u else KidUnit(c, u, j)
  }

  /** The buffer of cap bytes has room for the tree at unit u, and every offset fits into a slot. */
  predicate Fits(c: Code, u: nat, cap: nat)
    decreases c
  {
    && u <= 0xffff
    && match c
       case Regexp(_, pattern) => 8 * u + 6 + |pattern| <= cap
       case Function(fields, _, kids, _) =>
         8 * (u + fields.size) <= cap
         && forall j | 0 <= j < |kids| && kids[j].Sub? :: Fits(kids[j].sub, KidUnit(c, u, j), cap)
  }

  /** The memory holds at unit u the block b, which is the function c with its first n child slots filled in. */
  ghost predicate FunctionAt(mem: Memory, u: nat, c: Code, b: Block)
    requires c.Function?
  {
    && BlockAt(mem, 8 * u, b)
    && b.fields == c.fields && b.code == c.code && |b.slots| == |c.consts| + |c.kids| && b.slots[..|c.consts|] == c.consts
  }

  ghost predicate KidsLinked(c: Code, u: nat, slots: seq<U16>, n: nat)
    requires c.Function? && n <= |c.kids| && |slots| == |c.consts| + |c.kids|
  {
    forall i | |c.consts| <= i < |c.consts| + n :: slots[i] == KidSlot(c, u, i - |c.consts|)
  }

  /** The tree stands at unit u: the root first, then the subtrees one after the other, with slots that hold units. */
  ghost predicate Stored(mem: Memory, u: nat, c: Code)
    decreases c
  {
    match c
    case Regexp(flags, pattern) => RegexpAt(mem, 8 * u, flags, pattern)
    case Function(_, _, kids, _) =>
      && (exists b :: FunctionAt(mem, u, c, b) && KidsLinked(c, u, b.slots, |kids|))
      && (forall j | 0 <= j < |kids| && kids[j].Sub? :: Stored(mem, KidUnit(c, u, j), kids[j].sub))
  }

  lemma {:induction false} SpanMonotone(c: Code, i: nat, j: nat)
    requires c.Function? && i <= j <= |c.kids|
    ensures SpanOf(c, i) <= SpanOf(c, j)
    decreases j - i
  {
    if i < j {
      SpanMonotone(c, i, j - 1);
    }
  }

  lemma KidWithin(c: Code, u: nat, j: nat)
    requires c.Function? && j < |c.kids| && c.kids[j].Sub?
    ensures u + c.fields.size <= KidUnit(c, u, j) && KidUnit(c, u, j) + Span(c.kids[j].sub) == KidUnit(c, u, j + 1) <= u + Span(c)
  {
    SpanMonotone(c, j + 1, |c.kids|);
  }

  /** What stands in a snapshot depends on its own bytes only. */
  lemma {:induction false} StoredFrame(mem: Memory, mem': Memory, u: nat, c: Code)
    requires Stored(mem, u, c) && Agree(mem, mem', 8 * u, 8 * (u + Span(c)))
    ensures Stored(mem', u, c)
    decreases c
  {
    match c
    case Regexp(flags, pattern) =>
      RegexpFrame(mem, mem', 8 * u, flags, pattern);
    case Function(_, _, kids, _) =>
      var b :| FunctionAt(mem, u, c, b) && KidsLinked(c, u, b.slots, |kids|);
      BlockFrame(mem, mem', 8 * u, b);
      assert FunctionAt(mem', u, c, b);
      forall j | 0 <= j < |kids| && kids[j].Sub?
        ensures Stored(mem', KidUnit(c, u, j), kids[j].sub)
      {
        KidWithin(c, u, j);
        StoredFrame(mem, mem', KidUnit(c, u, j), kids[j].sub);
      }
  }
}

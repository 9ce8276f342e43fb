/** Loading byte code from a snapshot by copying: snapshot_load_compiled_code. */
module SnapshotLoad {
  import opened Allocation
  import opened Bytes
  import opened ByteCode
  import opened CodeTree
  import opened SnapshotSave
  import opened SnapshotOffsets

  /** The identifier of the first entry with this offset. */
  function IdOf(lits: seq<Entry>, offset: U16): U16
  {
    if lits == [] then 0 else if lits[0].offset == offset then lits[0].id else IdOf(lits[1..], offset)
  }

  lemma {:induction false} IdOfFirst(lits: seq<Entry>, offset: U16, k: nat)
    requires k < |lits| && lits[k].offset == offset && forall j | 0 <= j < k :: lits[j].offset != offset
    ensures IdOf(lits, offset) == lits[k].id
  {
    if k > 0 {
      IdOfFirst(lits[1..], offset, k - 1);
    }
  }

  predicate HasOffset(lits: seq<Entry>, offset: U16) { exists e :: e in lits && e.offset == offset }

  function LoadWord(lits: seq<Entry>, v: U16): U16 { if v != 0 then IdOf(lits, v) else 0 }

  function LoadWords(lits: seq<Entry>, words: seq<U16>): (r: seq<U16>)
    ensures |r| == |words| && forall i | 0 <= i < |words| :: r[i] == LoadWord(lits, words[i])
  {
    if words == [] then []
    else
      var n := |words| - 1;
      LoadWords(lits, words[..n]) + [LoadWord(lits, words[n])]
  }

  /** The tree that loading makes of a stored tree. A pattern is as long as the 16-bit counter says. */
  function Loaded(c: Code, lits: seq<Entry>): Code
    decreases c
  {
    match c
    case Regexp(flags, pattern) => Regexp(flags, pattern[..|pattern| % 0x1_0000])
    case Function(fields, consts, kids, code) => Function(fields, LoadWords(lits, consts), LoadedKids(c, lits, |kids|), code)
  }

  function LoadedKids(c: Code, lits: seq<Entry>, n: nat): (r: seq<Kid>)
    requires c.Function? && n <= |c.kids|
    ensures |r| == n
    ensures forall j | 0 <= j < n :: r[j] == if c.kids[j].Itself? then Itself else Sub(Loaded(c.kids[j].sub, lits))
    decreases c, n
  {
    if n == 0 then []
    else LoadedKids(c, lits, n - 1) + [if c.kids[n - 1].Itself? then Itself else Sub(Loaded(c.kids[n - 1].sub, lits))]
  }

  /** Every constant of the tree has an offset in the table, and every function has the reference count 1. */
  ghost predicate Loadable(c: Code, lits: seq<Entry>)
    decreases c
  {
    c.Function? ==>
      && c.fields.refs == 1
      && (forall i | 0 <= i < |c.consts| :: c.consts[i] == 0 || HasOffset(lits, c.consts[i]))
      && forall j | 0 <= j < |c.kids| && c.kids[j].Sub? :: Loadable(c.kids[j].sub, lits)
  }

  ghost predicate Grown(before: Heap, after: Heap)
  {
    forall q | q in before :: q in after && after[q] == before[q]
  }

  /** What a child slot of the object p holds once the child has been loaded. */
  ghost predicate KidLoaded(heap: Heap, p: U16, slot: U16, kid: Kid, lits: seq<Entry>)
  {
    if kid.Itself? then slot == p else slot != p && InHeap(heap, slot, Loaded(kid.sub, lits))
  }

  ghost predicate KidsLoaded(heap: Heap, p: U16, c: Code, slots: seq<U16>, n: nat, lits: seq<Entry>)
    requires c.Function? && n <= |c.kids| && |slots| == |c.consts| + |c.kids|
  {
    forall i | |c.consts| <= i < |c.consts| + n :: KidLoaded(heap, p, slots[i], c.kids[i - |c.consts|], lits)
  }

  lemma KidsGrow(heap: Heap, heap': Heap, p: U16, c: Code, slots: seq<U16>, n: nat, lits: seq<Entry>)
    requires c.Function? && n <= |c.kids| && |slots| == |c.consts| + |c.kids| && KidsLoaded(heap, p, c, slots, n, lits)
    requires Grown(heap, heap')
    ensures KidsLoaded(heap', p, c, slots, n, lits)
  {
    forall i | |c.consts| <= i < |c.consts| + n
      ensures KidLoaded(heap', p, slots[i], c.kids[i - |c.consts|], lits)
    {
      var kid := c.kids[i - |c.consts|];
      assert KidLoaded(heap, p, slots[i], kid, lits);
      if kid.Sub? {
        HeapGrows(heap, heap', slots[i], Loaded(kid.sub, lits));
      }
    }
  }

  /** The object p holds the function c with its constants loaded and its first n children as well. */
  ghost predicate RootLoaded(heap: Heap, p: U16, c: Code, b: Block, lits: seq<Entry>)
    requires c.Function?
  {
    && p != 0 && p in heap && heap[p] == Bytecode(b)
    && b.fields == c.fields && b.code == c.code && |b.slots| == |c.consts| + |c.kids|
    && b.slots[..|c.consts|] == LoadWords(lits, c.consts)
  }

  lemma WholeLoaded(heap: Heap, p: U16, c: Code, b: Block, lits: seq<Entry>)
    requires c.Function? && RootLoaded(heap, p, c, b, lits) && KidsLoaded(heap, p, c, b.slots, |c.kids|, lits)
    ensures InHeap(heap, p, Loaded(c, lits))
  {
    var c' := Loaded(c, lits);
    forall i | |c'.consts| <= i < |b.slots|
      ensures var kid := c'.kids[i - |c'.consts|];
        if kid.Itself? then b.slots[i] == p else b.slots[i] != p && InHeap(heap, b.slots[i], kid.sub)
    {
      assert KidLoaded(heap, p, b.slots[i], c.kids[i - |c.consts|], lits);
    }
  }

  /** heap1 is the heap after the child j of the object p has been loaded, with root q. */
  lemma ChildLoaded(before: Heap, heap: Heap, heap1: Heap, p: U16, c: Code, slots: seq<U16>, j: nat, q: U16, b': Block,
                    lits: seq<Entry>)
    requires c.Function? && j < |c.kids| && |slots| == |c.consts| + |c.kids|
    requires Grown(before, heap) && p in heap && p !in before && Grown(heap, heap1)
    requires KidsLoaded(heap - (before.Keys + {p}), p, c, slots, j, lits)
    requires if c.kids[j].Itself? then q == p
             else q !in heap && InHeap(heap1 - heap.Keys, q, Loaded(c.kids[j].sub, lits))
    requires b'.slots == slots[|c.consts| + j := q]
    ensures KidsLoaded(heap1[p := Bytecode(b')] - (before.Keys + {p}), p, c, b'.slots, j + 1, lits)
  {
    var below, below' := heap - (before.Keys + {p}), heap1[p := Bytecode(b')] - (before.Keys + {p});
    KidsGrow(below, below', p, c, slots, j, lits);
    var kid := c.kids[j];
    if kid.Sub? {
      HeapGrows(heap1 - heap.Keys, below', q, Loaded(kid.sub, lits));
    }
    assert KidLoaded(below', p, q, kid, lits);
  }

  /** What the loader may assume of child j of a stored function. */
  ghost predicate ChildStored(data: Memory, u: nat, kid: Kid, slot: U16, lits: seq<Entry>)
  {
    if kid.Itself? then slot == u else slot != u && Stored(data, slot, kid.sub) && Valid(kid.sub) && Loadable(kid.sub, lits)
  }

  lemma ChildrenStored(data: Memory, u: nat, c: Code, b: Block, lits: seq<Entry>)
    requires c.Function? && ValidFunction(c) && Valid(c) && Loadable(c, lits)
    requires FunctionAt(data, u, c, b) && KidsLinked(c, u, b.slots, |c.kids|) && KidsStored(data, u, c, |c.kids|)
    ensures forall i | |c.consts| <= i < |b.slots| :: ChildStored(data, u, c.kids[i - |c.consts|], b.slots[i], lits)
  {
    forall i | |c.consts| <= i < |b.slots|
      ensures ChildStored(data, u, c.kids[i - |c.consts|], b.slots[i], lits)
    {
      OneChildStored(data, u, c, i - |c.consts|, b.slots[i], lits);
    }
  }

  lemma OneChildStored(data: Memory, u: nat, c: Code, j: nat, slot: U16, lits: seq<Entry>)
    requires c.Function? && ValidFunction(c) && Valid(c) && Loadable(c, lits) && KidsStored(data, u, c, |c.kids|)
    requires j < |c.kids| && slot == KidSlot(c, u, j)
    ensures ChildStored(data, u, c.kids[j], slot, lits)
  {
    SpanMonotone(c, 0, j);
  }

  method FindId(lits: seq<Entry>, offset: U16) returns (id: U16)
    requires HasOffset(lits, offset)
    ensures id == IdOf(lits, offset)
  {
    var k := 0;
    while k < |lits| && lits[k].offset != offset
      invariant 0 <= k <= |lits| && HasOffset(lits[k..], offset) && IdOf(lits[k..], offset) == IdOf(lits, offset)
      decreases |lits| - k
    {
      assert lits[k..][1..] == lits[k + 1..];
      k := k + 1;
    }
    id := lits[k].id;
  }

  class Engine {
    var objects: Heap
    const memory: Allocator

    ghost predicate Valid() reads memory { memory.Valid() }

    constructor (objects: Heap, memory: Allocator)
      ensures this.objects == objects && this.memory == memory
    {
      this.objects, this.memory := objects, memory;
    }

    /** Any free address; 0 stands for a refused request or a heap with no address left, which stops the engine. */
    method Allocate(o: Object) returns (p: U16)
      requires Valid()
      modifies this`objects, memory
      ensures Valid() && memory.refused >= old(memory.refused)
      ensures p != 0 ==> p !in old(objects) && objects == old(objects)[p := o] && memory.refused == old(memory.refused)
      ensures p == 0 ==> objects == old(objects) && Exhausted(old(memory.refused))
    {
      var granted := memory.Available();
      p := 0;
      if granted {
        if q: U16 :| q != 0 && q !in objects {
          objects := objects[q := o];
          p := q;
        }
      }
    }

    /** A request has been refused since there were so many refusals, or every address is taken. */
    ghost predicate Exhausted(refusedBefore: nat)
      reads this, memory
    {
      memory.refused > refusedBefore || forall q: U16 | q != 0 :: q in objects
    }

    /** Loads the tree at the offset into newly allocated objects and returns its root, or 0 if a request for memory is
        refused or no address is left. */
    method Load(data: Memory, offset: nat, lits: seq<Entry>, ghost c: Code, ghost u: nat) returns (p: U16)
      requires Valid() && Stored(data, u, c) && CodeTree.Valid(c) && Loadable(c, lits) && offset == 8 * u
      modifies this`objects, memory
      ensures Valid() && Grown(old(objects), objects)
      ensures p != 0 ==> p !in old(objects) && InHeap(objects - old(objects).Keys, p, Loaded(c, lits))
      ensures memory.refused >= old(memory.refused) && (p != 0 ==> memory.refused == old(memory.refused))
      ensures p == 0 ==> Exhausted(old(memory.refused))
      decreases c
    {
      var flags := Get16(data, offset + 4);
      if !IsFunction(flags) {
        p := LoadRegexp(data, offset, c, u, lits);
      } else {
        p := LoadFunction(data, offset, lits, c, u);
      }
    }

    /** A regular expression is compiled again from its pattern. */
    method LoadRegexp(data: Memory, offset: nat, ghost c: Code, ghost u: nat, ghost lits: seq<Entry>) returns (p: U16)
      requires Valid() && c.Regexp? && Stored(data, u, c) && CodeTree.Valid(c) && offset == 8 * u
      modifies this`objects, memory
      ensures Valid() && Grown(old(objects), objects)
      ensures p != 0 ==> p !in old(objects) && InHeap(objects - old(objects).Keys, p, Loaded(c, lits))
      ensures memory.refused >= old(memory.refused) && (p != 0 ==> memory.refused == old(memory.refused))
      ensures p == 0 ==> Exhausted(old(memory.refused))
    {
      var flags, size := Get16(data, offset + 4), Get16(data, offset + 2);
      var pattern := data[offset + 6..offset + 6 + size];
      assert pattern == c.pattern[..|c.pattern| % 0x1_0000];
      p := Allocate(Compiled(flags, pattern));
    }

    /** The constants of the new object p, in place. */
    method MapConstants(p: U16, lits: seq<Entry>, ghost c: Code, ghost b: Block)
      requires c.Function? && p in objects && objects[p] == Bytecode(b)
      requires b.fields.constEnd == |c.consts| <= |b.slots| && b.slots[..|c.consts|] == c.consts
      requires forall i | 0 <= i < |c.consts| :: c.consts[i] == 0 || HasOffset(lits, c.consts[i])
      modifies this`objects
      ensures objects == old(objects)[p := Bytecode(b.(slots := LoadWords(lits, c.consts) + b.slots[|c.consts|..]))]
    {
      var end := objects[p].block.fields.constEnd;
      ghost var goal := LoadWords(lits, c.consts) + b.slots[|c.consts|..];
      ghost var slots := b.slots;
      for i := 0 to end
        invariant objects == old(objects)[p := Bytecode(b.(slots := slots))] && |slots| == |b.slots|
        invariant forall k | 0 <= k < i :: slots[k] == goal[k]
        invariant forall k | i <= k < |slots| :: slots[k] == b.slots[k]
      {
        var block := objects[p].block;
        assert block.slots[i] == b.slots[i] == c.consts[i];
        if block.slots[i] != 0 {
          var id := FindId(lits, block.slots[i]);
          objects := objects[p := Bytecode(block.(slots := block.slots[i := id]))];
          slots := slots[i := id];
        }
        assert slots[i] == goal[i];
      }
      assert slots == goal;
    }

    method LoadFunction(data: Memory, offset: nat, lits: seq<Entry>, ghost c: Code, ghost u: nat) returns (p: U16)
      requires Valid() && c.Function? && Stored(data, u, c) && CodeTree.Valid(c) && Loadable(c, lits) && offset == 8 * u
      modifies this`objects, memory
      ensures Valid() && Grown(old(objects), objects)
      ensures p != 0 ==> p !in old(objects) && InHeap(objects - old(objects).Keys, p, Loaded(c, lits))
      ensures memory.refused >= old(memory.refused) && (p != 0 ==> memory.refused == old(memory.refused))
      ensures p == 0 ==> Exhausted(old(memory.refused))
      decreases c, 1
    {
      ghost var before := objects;
      ghost var b;
      p, b := LoadRoot(data, offset, lits, c, u);
      if p == 0 {
        return;
      }
      ghost var j := 0;
      var i, end := objects[p].block.fields.constEnd, objects[p].block.fields.literalEnd;
      while i < end
        invariant Valid() && memory.refused == old(memory.refused) && i == |c.consts| + j <= end
        invariant RootLoaded(objects, p, c, b, lits) && p !in before && Grown(before, objects)
        invariant KidsLoaded(objects - (before.Keys + {p}), p, c, b.slots, j, lits)
        invariant forall k | i <= k < |b.slots| :: ChildStored(data, u, c.kids[k - |c.consts|], b.slots[k], lits)
      {
        var ok;
        ok, b := LoadChild(data, offset, lits, p, i, c, u, b, j, before);
        if !ok {
          return 0;
        }
        i, j := i + 1, j + 1;
      }
      KidsGrow(objects - (before.Keys + {p}), objects - before.Keys, p, c, b.slots, j, lits);
      WholeLoaded(objects - before.Keys, p, c, b, lits);
    }

    /** Allocates the block, copies it, and maps its constants; its child slots still hold offsets. */
    method LoadRoot(data: Memory, offset: nat, lits: seq<Entry>, ghost c: Code, ghost u: nat) returns (p: U16, ghost b: Block)
      requires Valid() && c.Function? && Stored(data, u, c) && CodeTree.Valid(c) && Loadable(c, lits) && offset == 8 * u
      modifies this`objects, memory
      ensures Valid() && Grown(old(objects), objects)
      ensures memory.refused >= old(memory.refused) && (p != 0 ==> memory.refused == old(memory.refused))
      ensures p == 0 ==> Exhausted(old(memory.refused))
      ensures p != 0 ==> p !in old(objects) && RootLoaded(objects, p, c, b, lits)
      ensures p != 0 ==>
        forall k | |c.consts| <= k < |b.slots| :: ChildStored(data, u, c.kids[k - |c.consts|], b.slots[k], lits)
    {
      b := TakeApart(data, u, c);
      ChildrenStored(data, u, c, b, lits);
      ReadBack(data, offset, b);
      p := Allocate(Bytecode(ReadBlock(data, offset, FieldsAt(data, offset))));
      if p != 0 {
        assert objects[p].block.fields.refs == 1;
        MapConstants(p, lits, c, b);
        b := b.(slots := LoadWords(lits, c.consts) + b.slots[|c.consts|..]);
        assert b.slots[..|c.consts|] == LoadWords(lits, c.consts);
      }
    }

    /** The body of the loop over the child slots. */
    method LoadChild(data: Memory, offset: nat, lits: seq<Entry>, p: U16, i: nat, ghost c: Code, ghost u: nat, ghost b: Block,
                     ghost j: nat, ghost before: Heap)
      returns (ok: bool, ghost b': Block)
      requires Valid() && c.Function? && j < |c.kids| && i == |c.consts| + j && offset == 8 * u
      requires RootLoaded(objects, p, c, b, lits) && p !in before && Grown(before, objects)
      requires KidsLoaded(objects - (before.Keys + {p}), p, c, b.slots, j, lits)
      requires ChildStored(data, u, c.kids[j], b.slots[i], lits)
      modifies this`objects, memory
      ensures Valid() && Grown(before, objects)
      ensures memory.refused >= old(memory.refused) && (ok ==> memory.refused == old(memory.refused))
      ensures !ok ==> Exhausted(old(memory.refused))
      ensures ok ==> RootLoaded(objects, p, c, b', lits)
      ensures ok ==> KidsLoaded(objects - (before.Keys + {p}), p, c, b'.slots, j + 1, lits)
      ensures ok ==> forall k | i < k < |b.slots| :: b'.slots[k] == b.slots[k]
      decreases c, 0
    {
      ghost var heap := objects;
      var slot := objects[p].block.slots[i];
      var q := p;
      if 8 * slot as int != offset {
        q := Load(data, 8 * slot as int, lits, c.kids[j].sub, slot);
        if q == 0 {
          return false, b;
        }
      }
      ghost var heap1 := objects;
      var block := objects[p].block;
      objects := objects[p := Bytecode(block.(slots := block.slots[i := q]))];
      b' := b.(slots := b.slots[i := q]);
      ok := true;
      ChildLoaded(before, heap, heap1, p, c, b.slots, j, q, b', lits);
      assert b'.slots[..|c.consts|] == b.slots[..|c.consts|];
    }
  }
}

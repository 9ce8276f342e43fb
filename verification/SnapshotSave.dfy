/** Writing compiled code into a snapshot buffer: snapshot_write_to_buffer_by_offset and snapshot_add_compiled_code. */
module SnapshotSave {
  import opened Bytes
  import opened ByteCode
  import opened CodeTree

  /** The subtrees of the first n children stand where they belong. */
  ghost predicate KidsStored(mem: Memory, u: nat, c: Code, n: nat)
    requires c.Function? && n <= |c.kids|
  {
    forall j | 0 <= j < n && c.kids[j].Sub? :: Stored(mem, KidUnit(c, u, j), c.kids[j].sub)
  }

  predicate KidsFit(c: Code, u: nat, cap: nat, n: nat)
    requires c.Function? && n <= |c.kids|
  {
    forall j | 0 <= j < n && c.kids[j].Sub? :: Fits(c.kids[j].sub, KidUnit(c, u, j), cap)
  }

  /** A stored function, taken apart and put together. */
  lemma TakeApart(mem: Memory, u: nat, c: Code) returns (b: Block)
    requires c.Function? && Stored(mem, u, c)
    ensures FunctionAt(mem, u, c, b) && KidsLinked(c, u, b.slots, |c.kids|) && KidsStored(mem, u, c, |c.kids|)
  {
    b :| FunctionAt(mem, u, c, b) && KidsLinked(c, u, b.slots, |c.kids|);
  }

  lemma PutTogether(mem: Memory, u: nat, c: Code, b: Block)
    requires c.Function? && FunctionAt(mem, u, c, b)
    requires KidsLinked(c, u, b.slots, |c.kids|) && KidsStored(mem, u, c, |c.kids|)
    ensures Stored(mem, u, c)
  {
  }

  lemma KidsFrame(mem: Memory, mem': Memory, u: nat, c: Code, n: nat)
    requires c.Function? && n <= |c.kids| && KidsStored(mem, u, c, n)
    requires Agree(mem, mem', 8 * (u + c.fields.size), 8 * KidUnit(c, u, n))
    ensures KidsStored(mem', u, c, n)
  {
    forall j | 0 <= j < n && c.kids[j].Sub?
      ensures Stored(mem', KidUnit(c, u, j), c.kids[j].sub)
    {
      KidBelow(c, u, j, n);
      var at, kid := KidUnit(c, u, j), c.kids[j].sub;
      assert Agree(mem, mem', 8 * at, 8 * (at + Span(kid)));
      StoredFrame(mem, mem', at, kid);
    }
  }

  /** What a child slot of the heap object p refers to. */
  ghost predicate ChildInHeap(heap: Heap, p: U16, slot: U16, kid: Kid)
  {
    if kid.Itself? then slot == p else slot != p && InHeap(heap, slot, kid.sub) && Valid(kid.sub)
  }

  lemma SlotInHeap(heap: Heap, p: U16, c: Code, block: Block, i: nat)
    requires c.Function? && InHeap(heap, p, c) && Valid(c) && heap[p] == Bytecode(block) && |c.consts| <= i < |block.slots|
    ensures ChildInHeap(heap, p, block.slots[i], c.kids[i - |c.consts|])
  {
  }

  lemma SlotsInHeap(heap: Heap, p: U16, c: Code, block: Block)
    requires c.Function? && InHeap(heap, p, c) && Valid(c) && heap[p] == Bytecode(block)
    ensures block.fields == c.fields && |block.slots| == block.fields.literalEnd == |c.consts| + |c.kids|
    ensures block.fields.constEnd == |c.consts|
    ensures forall i | |c.consts| <= i < |block.slots| :: ChildInHeap(heap, p, block.slots[i], c.kids[i - |c.consts|])
  {
    forall i | |c.consts| <= i < |block.slots|
      ensures ChildInHeap(heap, p, block.slots[i], c.kids[i - |c.consts|])
    {
      SlotInHeap(heap, p, c, block, i);
    }
  }

  lemma KidsFitStep(c: Code, u: nat, cap: nat, j: nat)
    requires c.Function? && j < |c.kids|
    ensures KidsFit(c, u, cap, j + 1) <==>
            KidsFit(c, u, cap, j) && (c.kids[j].Sub? ==> Fits(c.kids[j].sub, KidUnit(c, u, j), cap))
  {
  }

  lemma KidBelow(c: Code, u: nat, j: nat, n: nat)
    requires c.Function? && j < n <= |c.kids| && c.kids[j].Sub?
    ensures u + c.fields.size <= KidUnit(c, u, j) && KidUnit(c, u, j) + Span(c.kids[j].sub) <= KidUnit(c, u, n)
  {
    SpanMonotone(c, 0, j);
    SpanMonotone(c, j + 1, n);
  }

  /** The first n children of c are done: their slots are filled in and their subtrees stored, up to unit v. */
  ghost predicate Progress(mem: Memory, u: nat, c: Code, b: Block, n: nat, v: nat)
    requires c.Function? && n <= |c.kids|
  {
    FunctionAt(mem, u, c, b) && v == KidUnit(c, u, n) && KidsLinked(c, u, b.slots, n) && KidsStored(mem, u, c, n)
  }

  lemma StartProgress(mem: Memory, u: nat, c: Code, b: Block)
    requires c.Function? && FunctionAt(mem, u, c, b)
    ensures Progress(mem, u, c, b, 0, u + c.fields.size)
  {
  }

  lemma FunctionFits(c: Code, u: nat, cap: nat)
    requires c.Function?
    ensures Fits(c, u, cap) <==> u <= 0xffff && 8 * (u + c.fields.size) <= cap && KidsFit(c, u, cap, |c.kids|)
  {
  }

  function SlotAddress(c: Code, u: nat, j: nat): nat
    requires c.Function?
  {
    8 * u + HeaderSize(c.fields.flags) + 2 * (|c.consts| + j)
  }

  /** Filling in a child slot of a stored function. */
  lemma FillSlot(mem: Memory, u: nat, c: Code, b: Block, j: nat, slot: U16) returns (b': Block)
    requires c.Function? && j < |c.kids| && FunctionAt(mem, u, c, b)
    ensures SlotAddress(c, u, j) + 2 <= 8 * (u + c.fields.size) <= |mem|
    ensures b' == b.(slots := b.slots[|c.consts| + j := slot])
    ensures FunctionAt(Put16(mem, SlotAddress(c, u, j), slot), u, c, b')
  {
    var i := |c.consts| + j;
    SlotWrite(mem, 8 * u, b, i, slot);
    b' := b.(slots := b.slots[i := slot]);
    assert b'.slots[..|c.consts|] == b.slots[..|c.consts|];
  }

  lemma FunctionFrame(mem: Memory, mem': Memory, u: nat, c: Code, b: Block, v: nat)
    requires c.Function? && FunctionAt(mem, u, c, b) && u + c.fields.size <= v && OnlyWithin(mem, mem', 8 * v, |mem|)
    ensures FunctionAt(mem', u, c, b)
  {
    BlockFrame(mem, mem', 8 * u, b);
  }

  lemma LinkOne(c: Code, u: nat, slots: seq<U16>, j: nat, slots': seq<U16>, slot: U16)
    requires c.Function? && j < |c.kids| && |slots| == |c.consts| + |c.kids| && slots' == slots[|c.consts| + j := slot]
    requires KidsLinked(c, u, slots, j) && slot == KidSlot(c, u, j)
    ensures KidsLinked(c, u, slots', j + 1)
  {
  }

  lemma StoreOne(mem: Memory, u: nat, c: Code, j: nat, v: nat)
    requires c.Function? && j < |c.kids| && KidsStored(mem, u, c, j) && v == KidUnit(c, u, j)
    requires c.kids[j].Sub? ==> Stored(mem, v, c.kids[j].sub)
    ensures KidsStored(mem, u, c, j + 1)
  {
  }

  /** One more child: mem' is the memory after its subtree has been stored at unit v. */
  lemma Advance(mem: Memory, mem': Memory, u: nat, c: Code, b: Block, j: nat, v: nat, slot: U16) returns (b': Block)
    requires c.Function? && j < |c.kids| && Progress(mem, u, c, b, j, v) && OnlyWithin(mem, mem', 8 * v, |mem|)
    requires slot == KidSlot(c, u, j) && (c.kids[j].Sub? ==> Stored(mem', v, c.kids[j].sub))
    ensures SlotAddress(c, u, j) + 2 <= |mem| && b' == b.(slots := b.slots[|c.consts| + j := slot])
    ensures Progress(Put16(mem', SlotAddress(c, u, j), slot), u, c, b', j + 1, KidUnit(c, u, j + 1))
  {
    SpanMonotone(c, 0, j);
    FunctionFrame(mem, mem', u, c, b, v);
    KidsFrame(mem, mem', u, c, j);
    StoreOne(mem', u, c, j, v);
    b' := FillSlot(mem', u, c, b, j, slot);
    LinkOne(c, u, b.slots, j, b'.slots, slot);
    SpanMonotone(c, 0, j + 1);
    var mem2 := Put16(mem', SlotAddress(c, u, j), slot);
    KidsFrame(mem', mem2, u, c, j + 1);
  }

  lemma RegexpHeader(mem: Memory, at: nat, size: U16, refs: U16, flags: U16) returns (mem': Memory)
    requires at + 6 <= |mem|
    ensures mem' == Put16(Put16(Put16(mem, at + 2, refs), at, size), at + 4, flags)
    ensures Get16(mem', at) == size && Get16(mem', at + 2) == refs && Get16(mem', at + 4) == flags
    ensures OnlyWithin(mem, mem', at, at + 6)
  {
    var m1 := Put16(mem, at + 2, refs);
    var m2 := Put16(m1, at, size);
    mem' := Put16(m2, at + 4, flags);
    assert Get16(m2, at + 2) == refs;
  }

  class Writer {
    const buffer: array<Byte>
    var writeOffset: nat
    var errorOccurred: bool

    constructor (buffer: array<Byte>, writeOffset: nat)
      ensures this.buffer == buffer && this.writeOffset == writeOffset && !errorOccurred
    {
      this.buffer := buffer;
      this.writeOffset, errorOccurred := writeOffset, false;
    }

    /** Copies the data to the write offset if it fits. */
    method Write(data: seq<Byte>) returns (ok: bool)
      modifies this`writeOffset, buffer
      ensures ok <==> old(writeOffset) + |data| <= buffer.Length
      ensures ok ==> writeOffset == old(writeOffset) + |data| && buffer[old(writeOffset)..writeOffset] == data
      ensures !ok ==> writeOffset == old(writeOffset) && buffer[..] == old(buffer[..])
      ensures OnlyWithin(old(buffer[..]), buffer[..], old(writeOffset), old(writeOffset) + |data|)
    {
      if writeOffset + |data| > buffer.Length {
        return false;
      }
      forall i | 0 <= i < |data| {
        buffer[writeOffset + i] := data[i];
      }
      writeOffset := writeOffset + |data|;
      return true;
    }

    method StoreHeader(at: nat, size: U16, refs: U16, flags: U16)
      requires at + 6 <= buffer.Length
      modifies buffer
      ensures Get16(buffer[..], at) == size && Get16(buffer[..], at + 2) == refs && Get16(buffer[..], at + 4) == flags
      ensures OnlyWithin(old(buffer[..]), buffer[..], at, at + 6)
    {
      ghost var mem := RegexpHeader(buffer[..], at, size, refs, flags);
      Store16(buffer, at + 2, refs);
      Store16(buffer, at, size);
      Store16(buffer, at + 4, flags);
      assert buffer[..] == mem;
    }

    /** A regular expression is stored as its source. */
    method AddRegexp(flags: U16, pattern: seq<Byte>, ghost u: nat) returns (ghost v: nat)
      requires writeOffset == 8 * u && !errorOccurred
      modifies this, buffer
      ensures writeOffset == 8 * v && u <= v
      ensures errorOccurred <==> 8 * u + 6 + |pattern| > buffer.Length
      ensures !errorOccurred ==> v == u + RegexpUnits(pattern) && RegexpAt(buffer[..], 8 * u, flags, pattern)
      ensures OnlyWithin(old(buffer[..]), buffer[..], 8 * u, buffer.Length)
    {
      var start := writeOffset;
      if start + 6 > buffer.Length {
        errorOccurred := true;
        return u;
      }
      writeOffset := start + 6;
      var ok := Write(pattern);
      if !ok {
        errorOccurred := true;
      }
      v := AlignUp(u, if ok then |pattern| else 0);
      writeOffset := (writeOffset + 7) / 8 * 8;
      ghost var written := buffer[..];
      StoreHeader(start, (|pattern| + 6 + 7) / 8 % 0x1_0000, |pattern| % 0x1_0000, flags);
      if ok {
        PatternKept(written, buffer[..], start, pattern);
      }
    }

    /** Stores a tree of the heap at the write offset, and returns its unit. An error, here or before, is sticky: it is
        raised exactly if some part of the tree does not fit. */
    method AddCompiledCode(heap: Heap, p: U16, ghost c: Code, ghost u: nat) returns (start: U16, ghost v: nat)
      requires InHeap(heap, p, c) && Valid(c) && writeOffset == 8 * u
      modifies this, buffer
      ensures writeOffset == 8 * v && u <= v
      ensures errorOccurred <==> old(errorOccurred) || !Fits(c, u, buffer.Length)
      ensures !errorOccurred ==> start == u && v == u + Span(c) && Stored(buffer[..], u, c)
      ensures OnlyWithin(old(buffer[..]), buffer[..], 8 * u, buffer.Length)
      decreases c
    {
      if errorOccurred {
        return 0, u;
      }
      if writeOffset / 8 > 0xffff {
        errorOccurred := true;
        return 0, u;
      }
      start := writeOffset / 8;
      if heap[p].Compiled? {
        v := AddRegexp(heap[p].flags, heap[p].pattern, u);
        return;
      }
      v := AddFunction(heap, p, c, u, start);
    }

    method AddImage(block: Block, ghost u: nat) returns (ok: bool)
      requires ValidBlock(block) && writeOffset == 8 * u
      modifies this`writeOffset, buffer
      ensures ok <==> 8 * (u + block.fields.size) <= buffer.Length
      ensures writeOffset == if ok then 8 * (u + block.fields.size) else 8 * u
      ensures ok ==> BlockAt(buffer[..], 8 * u, block)
      ensures OnlyWithin(old(buffer[..]), buffer[..], 8 * u, buffer.Length)
    {
      ok := Write(Image(block));
      if ok {
        ghost var mem, lo, hi := buffer[..], 8 * u, 8 * (u + block.fields.size);
        assert mem[lo..hi] == buffer[lo..hi] == Image(block);
        ImageAt(block, mem, lo);
      }
    }

    method AddFunction(heap: Heap, p: U16, ghost c: Code, ghost u: nat, start: U16) returns (ghost v: nat)
      requires InHeap(heap, p, c) && Valid(c) && c.Function? && writeOffset == 8 * u && start == u && !errorOccurred
      modifies this, buffer
      ensures writeOffset == 8 * v && u <= v
      ensures errorOccurred <==> !Fits(c, u, buffer.Length)
      ensures !errorOccurred ==> v == u + Span(c) && Stored(buffer[..], u, c)
      ensures OnlyWithin(old(buffer[..]), buffer[..], 8 * u, buffer.Length)
      decreases c, 2
    {
      var block := heap[p].block;
      FunctionFits(c, u, buffer.Length);
      var ok := AddImage(block, u);
      if !ok {
        errorOccurred := true;
        return u;
      }
      ghost var was := buffer[..];
      StartProgress(was, u, c, block);
      SlotsInHeap(heap, p, c, block);
      ghost var b;
      v, b := AddChildren(heap, p, block, c, u, start);
      if !errorOccurred {
        PutTogether(buffer[..], u, c, b);
      }
    }

    /** The loop over the child slots. */
    method AddChildren(heap: Heap, p: U16, block: Block, ghost c: Code, ghost u: nat, start: U16)
      returns (ghost v: nat, ghost b: Block)
      requires c.Function? && block.fields == c.fields && start == u && !errorOccurred
      requires |block.slots| == block.fields.literalEnd == |c.consts| + |c.kids| && block.fields.constEnd == |c.consts|
      requires forall k | |c.consts| <= k < |block.slots| :: ChildInHeap(heap, p, block.slots[k], c.kids[k - |c.consts|])
      requires writeOffset == 8 * (u + c.fields.size) && Progress(buffer[..], u, c, block, 0, u + c.fields.size)
      modifies this, buffer
      ensures writeOffset == 8 * v && u <= v
      ensures errorOccurred <==> !KidsFit(c, u, buffer.Length, |c.kids|)
      ensures !errorOccurred ==> Progress(buffer[..], u, c, b, |c.kids|, v)
      ensures OnlyWithin(old(buffer[..]), buffer[..], 8 * u, buffer.Length)
      decreases c, 1
    {
      v, b := u + c.fields.size, block;
      ghost var j, was := 0, buffer[..];
      var i := block.fields.constEnd;
      while i < block.fields.literalEnd
        invariant i == block.fields.constEnd + j <= block.fields.literalEnd
        invariant writeOffset == 8 * v && u + c.fields.size <= v
        invariant FunctionAt(buffer[..], u, c, b) && |b.slots| == |block.slots|
        invariant errorOccurred <==> !KidsFit(c, u, buffer.Length, j)
        invariant !errorOccurred ==> Progress(buffer[..], u, c, b, j, v)
        invariant buffer[..8 * u] == was[..8 * u]
      {
        v, b := AddChild(heap, p, block, i, start, c, u, b, j, v, was);
        i, j := i + 1, j + 1;
      }
      PrefixKept(was, buffer[..], 8 * u);
    }

    /** The body of the loop over the child slots. */
    method AddChild(heap: Heap, p: U16, block: Block, i: nat, start: U16, ghost c: Code, ghost u: nat, ghost b: Block,
                    ghost j: nat, ghost v: nat, ghost was: Memory)
      returns (ghost v': nat, ghost b': Block)
      requires c.Function? && j < |c.kids| && i == |c.consts| + j < |block.slots| && start == u
      requires block.fields == c.fields && ChildInHeap(heap, p, block.slots[i], c.kids[j])
      requires writeOffset == 8 * v && u + c.fields.size <= v && FunctionAt(buffer[..], u, c, b)
      requires errorOccurred <==> !KidsFit(c, u, buffer.Length, j)
      requires !errorOccurred ==> Progress(buffer[..], u, c, b, j, v)
      requires 8 * u <= |was| == buffer.Length && buffer[..8 * u] == was[..8 * u]
      modifies this, buffer
      ensures writeOffset == 8 * v' && v <= v' && FunctionAt(buffer[..], u, c, b')
      ensures errorOccurred <==> !KidsFit(c, u, buffer.Length, j + 1)
      ensures !errorOccurred ==> Progress(buffer[..], u, c, b', j + 1, v')
      ensures buffer[..8 * u] == was[..8 * u]
      decreases c, 0
    {
      ghost var mem := buffer[..];
      KidsFitStep(c, u, buffer.Length, j);
      var slot;
      if block.slots[i] == p {
        slot, v' := start, v;
      } else {
        slot, v' := AddCompiledCode(heap, block.slots[i], c.kids[j].sub, v);
      }
      ghost var mem' := buffer[..];
      FunctionFrame(mem, mem', u, c, b, v);
      b' := FillSlot(mem', u, c, b, j, slot);
      if !errorOccurred {
        b' := Advance(mem, mem', u, c, b, j, v, slot);
      }
      ghost var mem2 := Put16(mem', SlotAddress(c, u, j), slot);
      Store16(buffer, 8 * start + HeaderSize(block.fields.flags) + 2 * i, slot);
      assert buffer[..] == mem2;
      TwoWrites(mem, mem', mem2, 8 * u, 8 * v, SlotAddress(c, u, j));
      assert buffer[..8 * u] == mem[..8 * u];
    }
  }

  lemma TwoWrites(mem: Memory, mem': Memory, mem2: Memory, lo: nat, mid: nat, at: nat)
    requires OnlyWithin(mem, mem', mid, |mem|) && OnlyWithin(mem', mem2, at, at + 2) && lo <= mid && lo <= at
    ensures OnlyWithin(mem, mem2, lo, |mem|)
  {
  }

  lemma PrefixKept(mem: Memory, mem': Memory, lo: nat)
    requires lo <= |mem| == |mem'| && mem[..lo] == mem'[..lo]
    ensures OnlyWithin(mem, mem', lo, |mem|)
  {
    forall i | 0 <= i < lo
      ensures mem[i] == mem'[i]
    {
      assert mem[..lo][i] == mem'[..lo][i];
    }
  }

  lemma AlignUp(u: nat, n: nat) returns (v: nat)
    ensures v == u + (n + 13) / 8 && (8 * u + 6 + n + 7) / 8 * 8 == 8 * v
  {
    v := u + (n + 13) / 8;
  }

  lemma PatternKept(mem: Memory, mem': Memory, at: nat, pattern: seq<Byte>)
    requires at + 6 + |pattern| <= |mem| && mem[at + 6..at + 6 + |pattern|] == pattern && OnlyWithin(mem, mem', at, at + 6)
    ensures mem'[at + 6..at + 6 + |pattern|] == pattern
  {
    assert mem'[at + 6..at + 6 + |pattern|] == mem[at + 6..at + 6 + |pattern|];
  }
}

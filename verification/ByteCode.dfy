/** The blocks of compiled byte code: ecma_compiled_code_t, cbc_uint8_arguments_t and cbc_uint16_arguments_t, as they
    stand in the engine's heap and, byte for byte, in a snapshot. */
module ByteCode {
  import opened Bytes

  /** The header of a function block; size counts units of 8 bytes. */
  datatype Fields = Fields(size: U16, refs: U16, flags: U16, stackLimit: U16, argumentEnd: U16, registerEnd: U16,
                           identEnd: U16, constEnd: U16, literalEnd: U16)

  datatype Block = Block(fields: Fields, slots: seq<U16>, code: seq<Byte>)

  predicate IsFunction(flags: U16) { flags % 2 == 1 }
  predicate Wide(flags: U16) { flags / 4 % 2 == 1 }
  predicate Strict(flags: U16) { flags / 8 % 2 == 1 }
  predicate ArgumentsNeeded(flags: U16) { flags / 16 % 2 == 1 }

  function HeaderSize(flags: U16): nat { if Wide(flags) then 18 else 12 }

  predicate Small(f: Fields)
  {
    f.stackLimit < 0x100 && f.argumentEnd < 0x100 && f.registerEnd < 0x100 && f.identEnd < 0x100 && f.constEnd < 0x100
    && f.literalEnd < 0x100
  }

  /** What js-parser.c guarantees of a function block. */
  predicate ValidBlock(b: Block)
  {
    && IsFunction(b.fields.flags)
    && (Wide(b.fields.flags) || Small(b.fields))
    && b.fields.argumentEnd <= b.fields.registerEnd <= b.fields.constEnd <= b.fields.literalEnd == |b.slots|
    && 8 * b.fields.size == HeaderSize(b.fields.flags) + 2 * |b.slots| + |b.code|
  }

  /** The block as memcpy sees it. */
  function Image(b: Block): (r: Memory)
    requires ValidBlock(b)
    ensures |r| == 8 * b.fields.size
  {
    var f := b.fields;
    Words([f.size, f.refs, f.flags])
    + (if Wide(f.flags) then Words([f.stackLimit, f.argumentEnd, f.registerEnd, f.identEnd, f.constEnd, f.literalEnd])
       else [f.stackLimit, f.argumentEnd, f.registerEnd, f.identEnd, f.constEnd, f.literalEnd])
    + Words(b.slots) + b.code
  }

  /** The header read through the struct that its flags select. */
  function FieldsAt(mem: Memory, at: nat): Fields
    requires at + 6 <= |mem| && at + HeaderSize(Get16(mem, at + 4)) <= |mem|
  {
    var flags := Get16(mem, at + 4);
    if Wide(flags) then
      Fields(Get16(mem, at), Get16(mem, at + 2), flags, Get16(mem, at + 6), Get16(mem, at + 8), Get16(mem, at + 10),
             Get16(mem, at + 12), Get16(mem, at + 14), Get16(mem, at + 16))
    else
      Fields(Get16(mem, at), Get16(mem, at + 2), flags, mem[at + 6], mem[at + 7], mem[at + 8], mem[at + 9], mem[at + 10],
             mem[at + 11])
  }

  /** The bytes of the header, in the order of cbc_uint8_arguments_t and cbc_uint16_arguments_t. */
  lemma HeaderBytes(b: Block)
    requires ValidBlock(b)
    ensures var f, wide := b.fields, b.fields.flags / 4 % 2 == 1;
      Image(b)[..if wide then 18 else 12] ==
      [f.size % 256, f.size / 256, f.refs % 256, f.refs / 256, f.flags % 256, f.flags / 256] +
      if wide then
        [f.stackLimit % 256, f.stackLimit / 256, f.argumentEnd % 256, f.argumentEnd / 256, f.registerEnd % 256,
         f.registerEnd / 256, f.identEnd % 256, f.identEnd / 256, f.constEnd % 256, f.constEnd / 256,
         f.literalEnd % 256, f.literalEnd / 256]
      else [f.stackLimit, f.argumentEnd, f.registerEnd, f.identEnd, f.constEnd, f.literalEnd]
  {
    var f := b.fields;
    var head := [f.size, f.refs, f.flags];
    WordBytes(head, 0);
    WordBytes(head, 1);
    WordBytes(head, 2);
    if Wide(f.flags) {
      var more := [f.stackLimit, f.argumentEnd, f.registerEnd, f.identEnd, f.constEnd, f.literalEnd];
      WordBytes(more, 0);
      WordBytes(more, 1);
      WordBytes(more, 2);
      WordBytes(more, 3);
      WordBytes(more, 4);
      WordBytes(more, 5);
    }
  }

  /** The memory holds the block at address at. */
  ghost predicate BlockAt(mem: Memory, at: nat, b: Block)
  {
    && ValidBlock(b)
    && at + 8 * b.fields.size <= |mem|
    && Get16(mem, at + 4) == b.fields.flags
    && FieldsAt(mem, at) == b.fields
    && var literals := at + HeaderSize(b.fields.flags);
    && (forall i: nat | i < |b.slots| :: Get16(mem, literals + 2 * i) == b.slots[i])
    && mem[literals + 2 * |b.slots|..at + 8 * b.fields.size] == b.code
  }

  /** A regular expression in a snapshot: its size in bytes, cut to 16 bits, stands in refs, and its pattern behind the
      six bytes of header. */
  ghost predicate RegexpAt(mem: Memory, at: nat, flags: U16, pattern: seq<Byte>)
  {
    && at + 6 + |pattern| <= |mem|
    && Get16(mem, at) == RegexpUnits(pattern) % 0x1_0000
    && Get16(mem, at + 2) == |pattern| % 0x1_0000
    && Get16(mem, at + 4) == flags
    && mem[at + 6..at + 6 + |pattern|] == pattern
  }

  function RegexpUnits(pattern: seq<Byte>): nat { (|pattern| + 13) / 8 }

  /** Word i of a run of words that starts at offset part of an image standing at address at. */
  lemma WordAt(mem: Memory, at: nat, img: Memory, part: nat, words: Memory, i: nat)
    requires at + |img| <= |mem| && mem[at..at + |img|] == img
    requires part + |words| <= |img| && img[part..part + |words|] == words && 2 * i + 2 <= |words|
    ensures Get16(mem, at + part + 2 * i) == Get16(words, 2 * i)
  {
    assert mem[at + part + 2 * i] == img[part + 2 * i] == words[2 * i];
    assert mem[at + part + 2 * i + 1] == img[part + 2 * i + 1] == words[2 * i + 1];
  }

  lemma ImageHeader(b: Block, mem: Memory, at: nat)
    requires ValidBlock(b) && at + 8 * b.fields.size <= |mem| && mem[at..at + 8 * b.fields.size] == Image(b)
    ensures Get16(mem, at + 4) == b.fields.flags && FieldsAt(mem, at) == b.fields
  {
    var f, img := b.fields, Image(b);
    var head := Words([f.size, f.refs, f.flags]);
    assert img[0..0 + 6] == head;
    WordAt(mem, at, img, 0, head, 0);
    WordAt(mem, at, img, 0, head, 1);
    WordAt(mem, at, img, 0, head, 2);
    if Wide(f.flags) {
      WideImage(b, mem, at);
    } else {
      NarrowImage(b, mem, at);
    }
  }

  lemma NarrowImage(b: Block, mem: Memory, at: nat)
    requires ValidBlock(b) && at + 8 * b.fields.size <= |mem| && mem[at..at + 8 * b.fields.size] == Image(b)
    requires !Wide(b.fields.flags)
    ensures var f := b.fields;
      && mem[at + 6] == f.stackLimit && mem[at + 7] == f.argumentEnd && mem[at + 8] == f.registerEnd
      && mem[at + 9] == f.identEnd && mem[at + 10] == f.constEnd && mem[at + 11] == f.literalEnd
  {
    var f, img := b.fields, Image(b);
    var bytes: Memory := [f.stackLimit, f.argumentEnd, f.registerEnd, f.identEnd, f.constEnd, f.literalEnd];
    assert img[6..12] == bytes;
    forall i: nat | i < 6
      ensures mem[at + 6 + i] == bytes[i]
    {
      assert mem[at + 6 + i] == img[6 + i] == img[6..12][i];
    }
    assert mem[at + 6 + 0] == bytes[0] && mem[at + 6 + 1] == bytes[1] && mem[at + 6 + 2] == bytes[2];
    assert mem[at + 6 + 3] == bytes[3] && mem[at + 6 + 4] == bytes[4] && mem[at + 6 + 5] == bytes[5];
  }

  lemma WideImage(b: Block, mem: Memory, at: nat)
    requires ValidBlock(b) && at + 8 * b.fields.size <= |mem| && mem[at..at + 8 * b.fields.size] == Image(b)
    requires Wide(b.fields.flags)
    ensures var f := b.fields;
      && Get16(mem, at + 6) == f.stackLimit && Get16(mem, at + 8) == f.argumentEnd && Get16(mem, at + 10) == f.registerEnd
      && Get16(mem, at + 12) == f.identEnd && Get16(mem, at + 14) == f.constEnd && Get16(mem, at + 16) == f.literalEnd
  {
    var f, img := b.fields, Image(b);
    var words := Words([f.stackLimit, f.argumentEnd, f.registerEnd, f.identEnd, f.constEnd, f.literalEnd]);
    assert img[6..6 + 12] == words;
    WordAt(mem, at, img, 6, words, 0);
    WordAt(mem, at, img, 6, words, 1);
    WordAt(mem, at, img, 6, words, 2);
    WordAt(mem, at, img, 6, words, 3);
    WordAt(mem, at, img, 6, words, 4);
    WordAt(mem, at, img, 6, words, 5);
  }

  /** Copying a block's image into memory puts the block there. */
  lemma ImageAt(b: Block, mem: Memory, at: nat)
    requires ValidBlock(b) && at + 8 * b.fields.size <= |mem| && mem[at..at + 8 * b.fields.size] == Image(b)
    ensures BlockAt(mem, at, b)
  {
    ImageHeader(b, mem, at);
    var img, header, words := Image(b), HeaderSize(b.fields.flags), Words(b.slots);
    assert img[header..header + |words|] == words;
    forall i: nat | i < |b.slots|
      ensures Get16(mem, at + header + 2 * i) == b.slots[i]
    {
      WordAt(mem, at, img, header, words, i);
    }
    assert img[header + |words|..] == b.code;
    var lo, hi := at + header + |words|, at + |img|;
    assert mem[lo..hi] == mem[at..hi][header + |words|..];
  }

  lemma SliceFrame(mem: Memory, mem': Memory, lo: nat, hi: nat)
    requires lo <= hi <= |mem| && Agree(mem, mem', lo, hi)
    ensures mem'[lo..hi] == mem[lo..hi]
  {
  }

  lemma HeaderFrame(mem: Memory, mem': Memory, at: nat, f: Fields)
    requires at + HeaderSize(f.flags) <= |mem| && Get16(mem, at + 4) == f.flags && FieldsAt(mem, at) == f
    requires Agree(mem, mem', at, at + HeaderSize(f.flags))
    ensures Get16(mem', at + 4) == f.flags && FieldsAt(mem', at) == f
  {
  }

  /** Memory in which the words behind a block's header have become slots, and nothing else has changed in the block. */
  lemma SlotsReplaced(mem: Memory, mem': Memory, at: nat, b: Block, slots: seq<U16>)
    requires BlockAt(mem, at, b) && |slots| == |b.slots| && |mem'| == |mem|
    requires var base := at + HeaderSize(b.fields.flags);
      && Agree(mem, mem', at, base) && Agree(mem, mem', base + 2 * |slots|, at + 8 * b.fields.size)
      && forall i: nat | i < |slots| :: Get16(mem', base + 2 * i) == slots[i]
    ensures BlockAt(mem', at, b.(slots := slots))
  {
    HeaderFrame(mem, mem', at, b.fields);
    SliceFrame(mem, mem', at + HeaderSize(b.fields.flags) + 2 * |slots|, at + 8 * b.fields.size);
  }

  /** A block is determined by the bytes it occupies. */
  lemma BlockFrame(mem: Memory, mem': Memory, at: nat, b: Block)
    requires BlockAt(mem, at, b) && Agree(mem, mem', at, at + 8 * b.fields.size)
    ensures BlockAt(mem', at, b)
  {
    var base := at + HeaderSize(b.fields.flags);
    forall i: nat | i < |b.slots|
      ensures Get16(mem', base + 2 * i) == b.slots[i]
    {
      assert Get16(mem, base + 2 * i) == b.slots[i];
    }
    SlotsReplaced(mem, mem', at, b, b.slots);
  }

  lemma RegexpFrame(mem: Memory, mem': Memory, at: nat, flags: U16, pattern: seq<Byte>)
    requires RegexpAt(mem, at, flags, pattern) && Agree(mem, mem', at, at + 8 * RegexpUnits(pattern))
    ensures RegexpAt(mem', at, flags, pattern)
  {
    var lo, hi := at + 6, at + 6 + |pattern|;
    assert mem[lo..hi] == mem'[lo..hi];
  }

  /** Storing a word into literal slot i. */
  lemma SlotWrite(mem: Memory, at: nat, b: Block, i: nat, v: U16)
    requires BlockAt(mem, at, b) && i < |b.slots|
    ensures at + HeaderSize(b.fields.flags) + 2 * i + 2 <= at + 8 * b.fields.size <= |mem|
    ensures BlockAt(Put16(mem, at + HeaderSize(b.fields.flags) + 2 * i, v), at, b.(slots := b.slots[i := v]))
  {
    var base, slots := at + HeaderSize(b.fields.flags), b.slots[i := v];
    var mem' := Put16(mem, base + 2 * i, v);
    forall j: nat | j < |slots|
      ensures Get16(mem', base + 2 * j) == slots[j]
    {
      if j != i {
        assert Get16(mem, base + 2 * j) == b.slots[j];
      }
    }
    SlotsReplaced(mem, mem', at, b, slots);
  }

  /** Storing a word into the reference counter. */
  lemma RefsWrite(mem: Memory, at: nat, b: Block, v: U16)
    requires BlockAt(mem, at, b)
    ensures BlockAt(Put16(mem, at + 2, v), at, b.(fields := b.fields.(refs := v)))
  {
    var mem', b' := Put16(mem, at + 2, v), b.(fields := b.fields.(refs := v));
    var header := at + HeaderSize(b.fields.flags);
    forall j: nat | j < |b.slots|
      ensures Get16(mem', header + 2 * j) == b.slots[j]
    {
      assert Get16(mem, header + 2 * j) == b.slots[j];
    }
    var lo, hi := header + 2 * |b.slots|, at + 8 * b.fields.size;
    assert mem[lo..hi] == mem'[lo..hi];
  }

  /** The block that stands at an address, read back. */
  function SlotsAt(mem: Memory, at: nat, n: nat): (r: seq<U16>)
    requires at + 2 * n <= |mem|
    ensures |r| == n
    ensures forall i: nat | i < n :: r[i] == Get16(mem, at + 2 * i)
  {
    if n == 0 then [] else SlotsAt(mem, at, n - 1) + [Get16(mem, at + 2 * (n - 1))]
  }

  function ReadBlock(mem: Memory, at: nat, f: Fields): Block
    requires at + 8 * f.size <= |mem| && HeaderSize(f.flags) + 2 * f.literalEnd <= 8 * f.size
  {
    var literals := at + HeaderSize(f.flags);
    Block(f, SlotsAt(mem, literals, f.literalEnd), mem[literals + 2 * f.literalEnd..at + 8 * f.size])
  }

  lemma ReadBack(mem: Memory, at: nat, b: Block)
    requires BlockAt(mem, at, b)
    ensures ReadBlock(mem, at, b.fields) == b
  {
    assert SlotsAt(mem, at + HeaderSize(b.fields.flags), b.fields.literalEnd) == b.slots;
  }
}

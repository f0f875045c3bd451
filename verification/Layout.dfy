/** Where everything lies in an image: the header words, the descriptor words and the fields
    of every instruction, read straight from the bytes of what the builder makes and of what
    the parser accepts. */
module Layout {
  import opened Common
  import opened Arithmetic
  import opened Isa
  import opened Apumc
  import L = Legality

  /** The little-endian word at a byte offset. */
  function Word(b: seq<byte>, at: nat): nat
    requires at + 4 <= |b|
  {
    (b[at] as int) + 0x100 * (b[at + 1] as int) + 0x1_0000 * (b[at + 2] as int) + 0x100_0000 * (b[at + 3] as int)
  }

  lemma WordIsWordAt(b: seq<byte>, at: nat)
    requires at + 4 <= |b|
    ensures Word(b, at) == WordAt(b, at) as nat
  {
  }

  /** The 16 words of the header of an image with a program of `n` instructions, `t` bytes of
      tables and `crc` as its check value; the table offset is zero without tables. */
  ghost predicate IsHeader(b: seq<byte>, c: Contents, crc: word)
    requires |b| >= 64 && |c.entries| == 3
  {
    var n, t := |c.program|, |c.table|;
    && Word(b, 0) == 0x4150_4D43 && Word(b, 4) == (if c.abi.V1? then 0x1_0000 else 0x2_0000)
    && Word(b, 8) == 192 + 8 * n + t && Word(b, 12) == n && Word(b, 16) == 192
    && Word(b, 20) == (if t == 0 then 0 else 192 + 8 * n) && Word(b, 24) == t && Word(b, 28) == 64 && Word(b, 32) == 3
    && (forall k: nat :: k < 32 ==>
          (L.Has(Word(b, 36), k) <==> exists j :: 0 <= j < 3 && L.Has(c.entries[j].primitiveMask, k)))
    && (forall j :: 0 <= j < 3 ==> c.entries[j].scratchBase + c.entries[j].scratchBytes <= Word(b, 40))
    && (exists j :: 0 <= j < 3 && c.entries[j].scratchBase + c.entries[j].scratchBytes == Word(b, 40))
    && Word(b, 44) == crc as nat
    && (Word(b, 48) + 0x1_0000_0000 * Word(b, 52) - c.buildId) % 0x1_0000_0000_0000_0000 == 0
    && Word(b, 56) == 0 && Word(b, 60) == 0
  }

  /** The eight words of a descriptor. */
  predicate IsDescriptor(b: seq<byte>, at: nat, e: Entry)
    requires at + 32 <= |b|
  {
    && Word(b, at) == e.formatId + 16 * e.entryPc && Word(b, at + 4) == e.firstPc + 0x1_0000 * e.lastPc
    && Word(b, at + 8) == e.scratchBase && Word(b, at + 12) == e.scratchBytes
    && Word(b, at + 16) == e.maxLoopCount && Word(b, at + 20) == e.maxRetired
    && Word(b, at + 24) == e.primitiveMask && Word(b, at + 28) == e.tableOffset + 0x1_0000 * e.tableBytes
  }

  /** The two words of an instruction: the immediate, and above it aux, the second and first
      source, the destination, the predicate, the opcode and the class. */
  predicate IsInstruction(b: seq<byte>, at: nat, i: Instruction)
    requires at + 8 <= |b|
  {
    && Word(b, at) == i.immediate
    && Word(b, at + 4) == i.aux + 0x100 * i.src1 + 0x1000 * i.src0 + 0x1_0000 * i.dst + 0x10_0000 * i.predicate_
      + 0x100_0000 * i.opcode + 0x1000_0000 * i.cls
  }

  // ---------------------------------------------------------------- The builder's image

  lemma DescriptorLies(crc32: seq<byte> -> word, c: Contents, target: Target, k: nat)
    requires BuildFits(c, target) && k < 3
    ensures IsDescriptor(Image(crc32, c), 64 + 32 * k, c.entries[k])
  {
    hide ValidEntry, ValidInstruction, MasksCover, Encodable, BitOr, BitsWithin, WordAt, EntryWords, Image, Word;
    var e, image := c.entries[k], Image(crc32, c);
    assert ValidEntry(e, |c.program|, target, |c.table|, c.abi);
    EntryRoundTrip(e, |c.program|, target, |c.table|, c.abi);
    DescriptorWords(e, |c.program|, target, |c.table|, c.abi);
    forall j: nat | j < 8
      ensures Word(image, 64 + 32 * k + 4 * j) == EntryWords(e, c.abi)[j]
    {
      assert BodyWords(c)[8 * k + j] == EntryWords(e, c.abi)[j];
      ImageBody(crc32, c, 8 * k + j);
      WordIsWordAt(image, 64 + 32 * k + 4 * j);
    }
    assert Word(image, 64 + 32 * k + 4 * 0) == EntryWords(e, c.abi)[0]
      && Word(image, 64 + 32 * k + 4 * 1) == EntryWords(e, c.abi)[1]
      && Word(image, 64 + 32 * k + 4 * 2) == EntryWords(e, c.abi)[2]
      && Word(image, 64 + 32 * k + 4 * 3) == EntryWords(e, c.abi)[3]
      && Word(image, 64 + 32 * k + 4 * 4) == EntryWords(e, c.abi)[4]
      && Word(image, 64 + 32 * k + 4 * 5) == EntryWords(e, c.abi)[5]
      && Word(image, 64 + 32 * k + 4 * 6) == EntryWords(e, c.abi)[6]
      && Word(image, 64 + 32 * k + 4 * 7) == EntryWords(e, c.abi)[7];
  }

  lemma DescriptorWords(e: Entry, count: nat, target: Target, table: nat, abi: Abi)
    requires ValidEntry(e, count, target, table, abi) && table <= TABLE_SCRATCH_BYTES
    ensures EntryWords(e, abi) == [
      e.formatId + 16 * e.entryPc, e.firstPc + 0x1_0000 * e.lastPc, e.scratchBase, e.scratchBytes, e.maxLoopCount,
      e.maxRetired, e.primitiveMask, e.tableOffset + 0x1_0000 * e.tableBytes]
  {
    hide ValidEntry;
    ValidEntryBounds(e, count, target, table, abi);
    BoundedFields(e, abi);
  }

  lemma InstructionLies(crc32: seq<byte> -> word, c: Contents, pc: nat)
    requires c.Encodes() && pc < |c.program|
    ensures IsInstruction(Image(crc32, c), 192 + 8 * pc, c.program[pc])
  {
    hide WordAt, Image, Word, EntryWords, Encodable, EncodeInstruction;
    var image, i := Image(crc32, c), c.program[pc];
    var w := EncodeInstruction(i);
    EncodedHalves(i);
    assert BodyWords(c)[32 + 2 * pc] == ProgramWords(c.program)[2 * pc] == w % 0x1_0000_0000;
    assert BodyWords(c)[32 + 2 * pc + 1] == ProgramWords(c.program)[2 * pc + 1] == w / 0x1_0000_0000;
    ImageBody(crc32, c, 32 + 2 * pc);
    ImageBody(crc32, c, 32 + 2 * pc + 1);
    WordIsWordAt(image, 192 + 8 * pc);
    WordIsWordAt(image, 192 + 8 * pc + 4);
  }

  lemma EncodedHalves(i: Instruction)
    requires Encodable(i)
    ensures var w, high := EncodeInstruction(i), i.aux + 0x100 * i.src1 + 0x1000 * i.src0 + 0x1_0000 * i.dst
        + 0x10_0000 * i.predicate_ + 0x100_0000 * i.opcode + 0x1000_0000 * i.cls;
      w % 0x1_0000_0000 == i.immediate && w / 0x1_0000_0000 == high < 0x1_0000_0000
  {
    var high := i.aux + 0x100 * i.src1 + 0x1000 * i.src0 + 0x1_0000 * i.dst
      + 0x10_0000 * i.predicate_ + 0x100_0000 * i.opcode + 0x1000_0000 * i.cls;
    DivModUnique(EncodeInstruction(i), 0x1_0000_0000, high, i.immediate);
  }

  /** The bits of a union. */
  lemma {:induction false} HasOr(a: nat, b: nat, k: nat)
    ensures L.Has(BitOr(a, b), k) <==> L.Has(a, k) || L.Has(b, k)
    decreases k
  {
    hide L.Has;
    L.LowestBit(a);
    L.LowestBit(b);
    L.LowestBit(BitOr(a, b));
    OrBits(a, b);
    if k == 0 {
    } else {
      L.NextBit(a, k);
      L.NextBit(b, k);
      L.NextBit(BitOr(a, b), k);
      HasOr(a / 2, b / 2, k - 1);
    }
  }

  lemma OrBits(a: nat, b: nat)
    ensures BitOr(a, b) / 2 == BitOr(a / 2, b / 2) && (BitOr(a, b) % 2 == 1 <==> a % 2 == 1 || b % 2 == 1)
  {
  }

  lemma UnionBits(entries: seq<Entry>)
    requires |entries| == 3
    ensures forall k: nat :: k < 32 ==>
      (L.Has(UnionMask(entries), k) <==> exists j :: 0 <= j < 3 && L.Has(entries[j].primitiveMask, k))
  {
    hide L.Has, BitOr;
    var a, b, d := entries[0].primitiveMask, entries[1].primitiveMask, entries[2].primitiveMask;
    forall k: nat | k < 32
      ensures L.Has(UnionMask(entries), k) <==> exists j :: 0 <= j < 3 && L.Has(entries[j].primitiveMask, k)
    {
      HasOr(BitOr(a, b), d, k);
      HasOr(a, b, k);
      assert L.Has(a, k) ==> L.Has(entries[0].primitiveMask, k);
      assert L.Has(b, k) ==> L.Has(entries[1].primitiveMask, k);
      assert L.Has(d, k) ==> L.Has(entries[2].primitiveMask, k);
    }
  }

  lemma BuildIdHalves(id: int)
    ensures (id % 0x1_0000_0000 + 0x1_0000_0000 * (id / 0x1_0000_0000 % 0x1_0000_0000) - id) % 0x1_0000_0000_0000_0000
      == 0
  {
    DivModFacts(id, 0x1_0000_0000);
    var high := id / 0x1_0000_0000;
    DivModFacts(high, 0x1_0000_0000);
    var turns := high / 0x1_0000_0000;
    assert id % 0x1_0000_0000 + 0x1_0000_0000 * (high % 0x1_0000_0000) - id == -turns * 0x1_0000_0000_0000_0000;
  }

  lemma HeaderLies(crc32: seq<byte> -> word, c: Contents, target: Target)
    requires BuildFits(c, target)
    ensures var image := Image(crc32, c); IsHeader(image, c, crc32(image[64..]))
  {
    hide ValidEntry, ValidInstruction, MasksCover, Encodable, BitOr, BitsWithin, WordAt, Image, Word, L.Has, UnionMask,
      Payload;
    var image, words := Image(crc32, c), HeaderWords(c, crc32(Payload(c)));
    ImageHeader(crc32, c, target);
    forall k: nat | k < 16
      ensures Word(image, 4 * k) == words[k]
    {
      assert HeaderOf(image)[k] as nat == words[k];
      WordIsWordAt(image, 4 * k);
    }
    assert Word(image, 4 * 0) == words[0] && Word(image, 4 * 1) == words[1] && Word(image, 4 * 2) == words[2]
      && Word(image, 4 * 3) == words[3] && Word(image, 4 * 4) == words[4] && Word(image, 4 * 5) == words[5]
      && Word(image, 4 * 6) == words[6] && Word(image, 4 * 7) == words[7] && Word(image, 4 * 8) == words[8]
      && Word(image, 4 * 9) == words[9] && Word(image, 4 * 10) == words[10] && Word(image, 4 * 11) == words[11]
      && Word(image, 4 * 12) == words[12] && Word(image, 4 * 13) == words[13] && Word(image, 4 * 14) == words[14]
      && Word(image, 4 * 15) == words[15];
    UnionBits(c.entries);
    BuildIdHalves(c.buildId);
    ScratchEndIs(c.entries);
  }

  lemma ScratchEndIs(entries: seq<Entry>)
    requires |entries| == 3
    ensures forall j :: 0 <= j < 3 ==> entries[j].scratchBase + entries[j].scratchBytes <= ScratchEnd(entries)
    ensures exists j :: 0 <= j < 3 && entries[j].scratchBase + entries[j].scratchBytes == ScratchEnd(entries)
  {
    assert ScratchEnd(entries) == entries[0].scratchBase + entries[0].scratchBytes
      || ScratchEnd(entries) == entries[1].scratchBase + entries[1].scratchBytes
      || ScratchEnd(entries) == entries[2].scratchBase + entries[2].scratchBytes;
  }

  /** The image of legal contents: header, three descriptors, 32 zero bytes, the instructions
      and the tables, each where the format puts it. */
  lemma ImageLayout(crc32: seq<byte> -> word, c: Contents, target: Target)
    requires BuildFits(c, target)
    ensures var image, n := Image(crc32, c), |c.program|;
      && |image| == 192 + 8 * n + |c.table| && IsHeader(image, c, crc32(image[64..]))
      && (forall k: nat :: k < 3 ==> IsDescriptor(image, 64 + 32 * k, c.entries[k]))
      && (forall a :: 160 <= a < 192 ==> image[a] == 0)
      && (forall pc: nat :: pc < n ==> IsInstruction(image, 192 + 8 * pc, c.program[pc]))
      && image[192 + 8 * n..] == c.table
  {
    hide ValidEntry, ValidInstruction, MasksCover, Encodable, BitOr, BitsWithin, WordAt, Image, Word, L.Has, IsHeader,
      IsDescriptor, IsInstruction;
    HeaderLies(crc32, c, target);
    forall k: nat | k < 3
      ensures IsDescriptor(Image(crc32, c), 64 + 32 * k, c.entries[k])
    {
      DescriptorLies(crc32, c, target, k);
    }
    forall a: nat | 160 <= a < 192
      ensures Image(crc32, c)[a] == 0
    {
      PaddingByte(crc32, c, a);
    }
    forall pc: nat | pc < |c.program|
      ensures IsInstruction(Image(crc32, c), 192 + 8 * pc, c.program[pc])
    {
      InstructionLies(crc32, c, pc);
    }
    ImageTable(crc32, c);
  }

  // ---------------------------------------------------------------- The parser's image

  /** The byte lies in a region that starts at `at` and has `size` bytes. */
  predicate Within(a: int, at: int, size: int) { at <= a < at + size }

  /** The four regions of an image of `size` bytes lie inside it and share no byte; the header
      is the first 64. */
  ghost predicate Apart(h: Header, size: nat) {
    RegionsApart(h[4] as int, 8 * (h[3] as int), h[7] as int, h[5] as int, h[6] as int, size)
  }

  ghost predicate RegionsApart(program: int, n: int, descriptors: int, table: int, t: int, size: nat) {
    && (forall a: int :: Within(a, program, n) ==>
          64 <= a < size && !Within(a, descriptors, 96) && !Within(a, table, t))
    && (forall a: int :: Within(a, descriptors, 96) ==> 64 <= a < size && !Within(a, table, t))
    && (forall a: int :: Within(a, table, t) ==> 64 <= a < size)
  }

  /** What the header says besides: alignment, sizes and the primitives of the target. */
  predicate Aligned(h: Header, size: nat, target: Target) {
    && h[4] % 64 == 0 && h[7] % 32 == 0 && h[5] % 4 == 0
    && if target.P3? then h[6] == 0 && h[5] == 0 && h[9] == 0 && h[10] == 0
       else
         h[6] <= 0x6000 && h[6] % 4 == 0 && h[5] <= size && h[10] <= 0x6000 && BitsWithin(h[9], TargetMask(target))
  }

  /** The range tests of the parser accept exactly the headers whose regions are apart. */
  lemma RangesFitIff(h: Header, size: nat, target: Target)
    requires h[3] >= 1
    ensures RangesFit(h, size, target) <==> Aligned(h, size, target) && Apart(h, size)
  {
    hide BitsWithin;
    if Apart(h, size) {
      RegionFits(h, size, h[4] as int, 8 * (h[3] as int));
      RegionFits(h, size, h[7] as int, 96);
      if h[6] != 0 {
        RegionFits(h, size, h[5] as int, h[6] as int);
        OneBehind(h[4] as int, 8 * (h[3] as int), h[5] as int, h[6] as int);
        OneBehind(h[7] as int, 96, h[5] as int, h[6] as int);
      }
      OneBehind(h[4] as int, 8 * (h[3] as int), h[7] as int, 96);
    }
  }

  /** A region that is not empty lies inside if its first and last bytes do. */
  lemma RegionFits(h: Header, size: nat, at: int, n: int)
    requires Apart(h, size) && n >= 1
    requires (at == h[4] as int && n == 8 * (h[3] as int)) || (at == h[7] as int && n == 96)
      || (at == h[5] as int && n == h[6] as int)
    ensures 64 <= at && at + n <= size
  {
    assert Within(at, at, n) && Within(at + n - 1, at, n);
  }

  /** Regions without a common byte lie one behind the other. */
  lemma OneBehind(at: int, n: int, other: int, k: int)
    requires n >= 1 && k >= 1 && forall a: int :: !(Within(a, at, n) && Within(a, other, k))
    ensures at + n <= other || other + k <= at
  {
    assert !(Within(at, at, n) && Within(at, other, k));
    assert !(Within(other, at, n) && Within(other, other, k));
  }

  /** The header words that do not place a region: version, reserved words, the primitives of
      all entries, and the end of the last scratch window. */
  ghost predicate HeaderSays(b: seq<byte>, target: Target, abi: Option<Abi>, entries: seq<Entry>)
    requires |b| >= 64 && |entries| == 3
  {
    && (Word(b, 4) == 0x1_0000 || (target.P5? && Word(b, 4) == 0x2_0000))
    && (abi.Some? ==> Word(b, 4) == if abi.value.V1? then 0x1_0000 else 0x2_0000)
    && Word(b, 56) == 0 && Word(b, 60) == 0
    && (forall k: nat :: k < 32 ==>
          (L.Has(Word(b, 36), k) <==> exists j :: 0 <= j < 3 && L.Has(entries[j].primitiveMask, k)))
    && (forall j :: 0 <= j < 3 ==> entries[j].scratchBase + entries[j].scratchBytes <= Word(b, 40))
    && (exists j :: 0 <= j < 3 && entries[j].scratchBase + entries[j].scratchBytes == Word(b, 40))
  }

  lemma HeaderParsed(crc32: seq<byte> -> word, b: seq<byte>, target: Target, abi: Option<Abi>)
    requires ParseFits(crc32, b, target, abi)
    ensures HeaderSays(b, target, abi, EntriesOf(b))
  {
    hide WordAt, Word, EntriesLegal, EntriesOf, DmaCovered, DescriptorsClear, PaddingZero, L.Has, UnionMask, ScratchEnd;
    var h := HeaderOf(b);
    forall k: nat | k < 16
      ensures h[k] as nat == Word(b, 4 * k)
    {
      WordIsWordAt(b, 4 * k);
    }
    assert h[1] as nat == Word(b, 4 * 1) && h[9] as nat == Word(b, 4 * 9) && h[10] as nat == Word(b, 4 * 10)
      && h[14] as nat == Word(b, 4 * 14) && h[15] as nat == Word(b, 4 * 15);
    UnionBits(EntriesOf(b));
    ScratchEndIs(EntriesOf(b));
  }

  /** What the parser returns is what lies in the image: header words from its start, every
      descriptor and every instruction where the header says, zeros outside the regions. */
  lemma ParsedLayout(crc32: seq<byte> -> word, b: seq<byte>, target: Target, abi: Option<Abi>)
    requires ParseFits(crc32, b, target, abi)
    ensures HeaderSays(b, target, abi, EntriesOf(b))
    ensures var program, entries := Word(b, 16), Word(b, 28);
      && Word(b, 0) == 0x4150_4D43 && Word(b, 8) == |b| && Word(b, 32) == 3 && Word(b, 12) == |ProgramOf(b)|
      && Word(b, 44) == crc32(b[64..]) as nat
      && (forall k: nat :: k < 3 ==>
            entries + 32 * k + 32 <= |b| && IsDescriptor(b, entries + 32 * k, EntriesOf(b)[k]))
      && (forall pc: nat :: pc < |ProgramOf(b)| ==>
            program + 8 * pc + 8 <= |b| && IsInstruction(b, program + 8 * pc, ProgramOf(b)[pc]))
      && forall a :: 64 <= a < |b| ==>
        Within(a, program, 8 * |ProgramOf(b)|) || Within(a, entries, 96) || Within(a, Word(b, 20), Word(b, 24))
        || b[a] == 0
  {
    hide WordAt, Word, EntryWords, DecodeEntry, EncodeInstruction, DecodeInstruction, EntriesLegal, ValidEntry,
      MasksCover,
      ReservedClear, DmaCovered, IsDescriptor, IsInstruction, BitsWithin, UnionMask, ScratchEnd, HeaderSays;
    HeaderParsed(crc32, b, target, abi);
    var h := HeaderOf(b);
    forall k: nat | k < 16
      ensures h[k] as nat == Word(b, 4 * k)
    {
      WordIsWordAt(b, 4 * k);
    }
    assert h[0] as nat == Word(b, 4 * 0) && h[2] as nat == Word(b, 4 * 2) && h[3] as nat == Word(b, 4 * 3)
      && h[4] as nat == Word(b, 4 * 4) && h[5] as nat == Word(b, 4 * 5) && h[6] as nat == Word(b, 4 * 6)
      && h[7] as nat == Word(b, 4 * 7) && h[8] as nat == Word(b, 4 * 8) && h[11] as nat == Word(b, 4 * 11);
    forall k: nat | k < 3
      ensures IsDescriptor(b, h[7] as int + 32 * k, EntriesOf(b)[k])
    {
      DescriptorParsed(b, target, k);
    }
    forall pc: nat | pc < |ProgramOf(b)|
      ensures IsInstruction(b, h[4] as int + 8 * pc, ProgramOf(b)[pc])
    {
      InstructionParsed(b, pc);
    }
  }

  lemma DescriptorParsed(b: seq<byte>, target: Target, k: nat)
    requires Readable(b) && DescriptorsClear(b, target) && k < 3
    ensures IsDescriptor(b, HeaderOf(b)[7] as int + 32 * k, EntriesOf(b)[k])
  {
    hide WordAt, Word, EntryWords, DecodeEntry;
    var at, abi, w := HeaderOf(b)[7] as int + 32 * k, ImageAbi(HeaderOf(b)), DescriptorAt(b, k);
    var e := EntriesOf(b)[k];
    forall j: nat | j < 8
      ensures Word(b, at + 4 * j) == w[j] as nat
    {
      WordIsWordAt(b, at + 4 * j);
    }
    assert ReservedClear(w, abi);
    EntryCanonical(w, abi);
    ParsedWords(w, abi);
    assert Word(b, at + 4 * 0) == w[0] as nat && Word(b, at + 4 * 1) == w[1] as nat
      && Word(b, at + 4 * 2) == w[2] as nat
      && Word(b, at + 4 * 3) == w[3] as nat && Word(b, at + 4 * 4) == w[4] as nat && Word(b, at + 4 * 5) == w[5] as nat
      && Word(b, at + 4 * 6) == w[6] as nat && Word(b, at + 4 * 7) == w[7] as nat;
  }

  lemma ParsedWords(w: seq<word>, abi: Abi)
    requires |w| == 8 && ReservedClear(w, abi)
    ensures var e := DecodeEntry(w, abi);
      w == [
        e.formatId + 16 * e.entryPc, e.firstPc + 0x1_0000 * e.lastPc, e.scratchBase, e.scratchBytes, e.maxLoopCount,
        e.maxRetired, e.primitiveMask, e.tableOffset + 0x1_0000 * e.tableBytes]
  {
    EntryCanonical(w, abi);
    BoundedFields(DecodeEntry(w, abi), abi);
  }

  lemma InstructionParsed(b: seq<byte>, pc: nat)
    requires Readable(b) && pc < |ProgramOf(b)|
    ensures IsInstruction(b, HeaderOf(b)[4] as int + 8 * pc, ProgramOf(b)[pc])
  {
    hide WordAt, Word, EncodeInstruction, DecodeInstruction;
    var at, w := HeaderOf(b)[4] as int + 8 * pc, InstructionWord(b, pc);
    InstructionCanonical(w);
    EncodedHalves(DecodeInstruction(w));
    WordIsWordAt(b, at);
    WordIsWordAt(b, at + 4);
    DivModUnique(w, 0x1_0000_0000, Word(b, at + 4), Word(b, at));
  }
}

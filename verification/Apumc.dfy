/** APUMC microcode images: the instruction and descriptor encodings, the builder and
    the parser. The CRC-32 of the image is a parameter. */
module Apumc {
  import opened Common
  import opened Arithmetic
  import opened Isa
  import CF = ControlFlow

  const MAGIC: word := 0x4150_4D43
  const HEADER_BYTES: nat := 64
  const ENTRY_BYTES: nat := 32
  const INSTRUCTION_OFFSET: nat := 192
  const DMA_MASK: nat := 0x7_0000

  function AbiWord(abi: Abi): word { if abi.V2? then 0x2_0000 else 0x1_0000 }

  // ---------------------------------------------------------------- Instructions

  /** Every field fits its place in the instruction word. */
  predicate Encodable(i: Instruction) {
    && i.cls < 0x10 && i.opcode < 0x10 && i.predicate_ < 0x10 && i.dst < 0x10 && i.src0 < 0x10 && i.src1 < 0x10
    && i.aux < 0x100 && i.immediate < 0x1_0000_0000
  }

  /** `Instruction.encode` */
  function EncodeInstruction(i: Instruction): nat
    requires Encodable(i)
  {
    0x1000_0000_0000_0000 * i.cls + 0x100_0000_0000_0000 * i.opcode + 0x10_0000_0000_0000 * i.predicate_
    + 0x1_0000_0000_0000 * i.dst + 0x1000_0000_0000 * i.src0 + 0x100_0000_0000 * i.src1
    + 0x1_0000_0000 * i.aux + i.immediate
  }

  /** `Instruction.decode` */
  function DecodeInstruction(w: nat): Instruction {
    Instruction(
      w / 0x1000_0000_0000_0000 % 0x10, w / 0x100_0000_0000_0000 % 0x10, w / 0x10_0000_0000_0000 % 0x10,
      w / 0x1_0000_0000_0000 % 0x10, w / 0x1000_0000_0000 % 0x10, w / 0x100_0000_0000 % 0x10,
      w / 0x1_0000_0000 % 0x100, w % 0x1_0000_0000)
  }

  /** A field between the parts below and above it. */
  lemma Field(w: nat, low: nat, unit: nat, field: nat, size: nat, high: nat)
    requires low < unit && field < size && w == low + unit * (field + size * high)
    ensures w / unit % size == field
  {
    DivModUnique(w, unit, field + size * high, low);
    DivModUnique(field + size * high, size, high, field);
  }

  lemma InstructionRoundTrip(i: Instruction)
    requires Encodable(i)
    ensures EncodeInstruction(i) < 0x1_0000_0000_0000_0000
    ensures DecodeInstruction(EncodeInstruction(i)) == i
  {
    var w := EncodeInstruction(i);
    var a := 0x1_0000_0000 * i.aux + i.immediate;
    var b := 0x100_0000_0000 * i.src1 + a;
    var c := 0x1000_0000_0000 * i.src0 + b;
    var d := 0x1_0000_0000_0000 * i.dst + c;
    var e := 0x10_0000_0000_0000 * i.predicate_ + d;
    var f := 0x100_0000_0000_0000 * i.opcode + e;
    Field(w, f, 0x1000_0000_0000_0000, i.cls, 0x10, 0);
    Field(w, e, 0x100_0000_0000_0000, i.opcode, 0x10, i.cls);
    Field(w, d, 0x10_0000_0000_0000, i.predicate_, 0x10, 0x10 * i.cls + i.opcode);
    var p := 0x100 * i.cls + 0x10 * i.opcode + i.predicate_;
    Field(w, c, 0x1_0000_0000_0000, i.dst, 0x10, p);
    Field(w, b, 0x1000_0000_0000, i.src0, 0x10, 0x10 * p + i.dst);
    Field(w, a, 0x100_0000_0000, i.src1, 0x10, 0x100 * p + 0x10 * i.dst + i.src0);
    var q := 0x1000 * p + 0x100 * i.dst + 0x10 * i.src0 + i.src1;
    Field(w, i.immediate, 0x1_0000_0000, i.aux, 0x100, q);
    DivModUnique(w, 0x1_0000_0000, 0x100 * q + i.aux, i.immediate);
  }

  /** The quotient by `unit` is a digit and the quotient by the next unit. */
  lemma Peel(w: nat, unit: nat, size: nat, next: nat)
    requires unit > 0 && size > 0 && next == unit * size
    ensures next > 0 && w / unit == w / unit % size + size * (w / next) && 0 <= w / unit % size < size && w / next >= 0
  {
    DivDiv(w, unit, size);
    DivModFacts(w / unit, size);
    DivNonNegative(w, next);
  }

  lemma InstructionCanonical(w: nat)
    requires w < 0x1_0000_0000_0000_0000
    ensures Encodable(DecodeInstruction(w)) && EncodeInstruction(DecodeInstruction(w)) == w
  {
    Peel(w, 1, 0x1_0000_0000, 0x1_0000_0000);
    Peel(w, 0x1_0000_0000, 0x100, 0x100_0000_0000);
    Peel(w, 0x100_0000_0000, 0x10, 0x1000_0000_0000);
    Peel(w, 0x1000_0000_0000, 0x10, 0x1_0000_0000_0000);
    Peel(w, 0x1_0000_0000_0000, 0x10, 0x10_0000_0000_0000);
    Peel(w, 0x10_0000_0000_0000, 0x10, 0x100_0000_0000_0000);
    Peel(w, 0x100_0000_0000_0000, 0x10, 0x1000_0000_0000_0000);
    Peel(w, 0x1000_0000_0000_0000, 0x10, 0x1_0000_0000_0000_0000);
    DivModUnique(w, 0x1_0000_0000_0000_0000, 0, w);
  }

  // ---------------------------------------------------------------- Entry descriptors

  /** The program counters of an image have this many values. */
  function PcValues(abi: Abi): nat { if abi.V2? then 0x1000 else 0x800 }

  /** `Entry.words`, on descriptors whose fields do not overlap. */
  function EntryWords(e: Entry, abi: Abi): (w: seq<nat>)
    ensures |w| == 8
  {
    var entryPc := e.entryPc % (if abi.V2? then 0x1_0000 else 0x800);
    var pcs := PcValues(abi);
    [e.formatId + 0x10 * entryPc,
     e.firstPc % pcs + 0x1_0000 * (e.lastPc % pcs),
     e.scratchBase, e.scratchBytes, e.maxLoopCount, e.maxRetired, e.primitiveMask,
     e.tableOffset + 0x1_0000 * e.tableBytes]
  }

  predicate ReservedClear(w: seq<nat>, abi: Abi)
    requires |w| == 8
  {
    && w[0] < 0x10 * PcValues(abi)
    && w[1] % 0x1_0000 < PcValues(abi) && w[1] / 0x1_0000 < PcValues(abi)
    && w[2] < 0x2_0000 && w[3] < 0x2_0000 && w[4] < 0x1_0000 && w[5] < 0x100_0000
  }

  function DecodeEntry(w: seq<word>, abi: Abi): Entry
    requires |w| == 8
  {
    var pcs := PcValues(abi);
    Entry(w[0] % 0x10, w[0] / 0x10 % pcs, w[1] % pcs, w[1] / 0x1_0000 % pcs,
      w[4] % 0x1_0000, w[5] % 0x100_0000, w[2] % 0x2_0000, w[3] % 0x2_0000, w[6],
      w[7] % 0x1_0000, w[7] / 0x1_0000 % 0x1_0000)
  }

  lemma {:induction false} WithinBound(a: nat, b: nat)
    requires BitsWithin(a, b)
    ensures a <= b
    decreases a
  {
    if a != 0 {
      WithinBound(a / 2, b / 2);
    }
  }

  lemma ValidEntryBounds(e: Entry, count: nat, target: Target, table: nat, abi: Abi)
    requires ValidEntry(e, count, target, table, abi) && table <= TABLE_SCRATCH_BYTES
    ensures e.formatId < 0x10 && e.entryPc < PcValues(abi) && e.firstPc < PcValues(abi) && e.lastPc < PcValues(abi)
    ensures e.maxLoopCount < 0x1_0000 && e.maxRetired < 0x100_0000 && e.scratchBase < 0x1_0000
      && e.scratchBytes < 0x1_0000
    ensures e.primitiveMask < 0x20_0000 && e.tableOffset < 0x1_0000 && e.tableBytes < 0x1_0000
  {
    if !target.P3? {
      WithinBound(e.primitiveMask, TargetMask(target));
    }
  }

  lemma EntryRoundTrip(e: Entry, count: nat, target: Target, table: nat, abi: Abi)
    requires ValidEntry(e, count, target, table, abi) && table <= TABLE_SCRATCH_BYTES
    ensures forall k :: 0 <= k < 8 ==> EntryWords(e, abi)[k] < 0x1_0000_0000
    ensures ReservedClear(EntryWords(e, abi), abi) && DecodeEntry(EntryWords(e, abi), abi) == e
  {
    hide ValidEntry;
    ValidEntryBounds(e, count, target, table, abi);
    TwoFields(e.formatId, 0x10, e.entryPc);
    TwoFields(e.firstPc, 0x1_0000, e.lastPc);
    TwoFields(e.tableOffset, 0x1_0000, e.tableBytes);
    BoundedFields(e, abi);
  }

  lemma TwoFields(low: nat, unit: nat, high: nat)
    requires low < unit
    ensures (low + unit * high) % unit == low && (low + unit * high) / unit == high
  {
    DivModUnique(low + unit * high, unit, high, low);
  }

  lemma Small(n: nat, bound: nat)
    requires n < bound
    ensures n % bound == n
  {
    DivModUnique(n, bound, 0, n);
  }

  /** A half word that is small is small modulo the number of program counters. */
  lemma LowHalf(w: nat, abi: Abi)
    requires w % 0x1_0000 < PcValues(abi)
    ensures w % PcValues(abi) == w % 0x1_0000
  {
    DivModFacts(w, 0x1_0000);
    if abi.V2? {
      DivModUnique(w, 0x1000, 0x10 * (w / 0x1_0000), w % 0x1_0000);
    } else {
      DivModUnique(w, 0x800, 0x20 * (w / 0x1_0000), w % 0x1_0000);
    }
  }

  lemma BoundedFields(e: Entry, abi: Abi)
    requires e.entryPc < PcValues(abi) && e.firstPc < PcValues(abi) && e.lastPc < PcValues(abi)
    ensures e.entryPc % (if abi.V2? then 0x1_0000 else 0x800) == e.entryPc == e.entryPc % PcValues(abi)
    ensures e.firstPc % PcValues(abi) == e.firstPc && e.lastPc % PcValues(abi) == e.lastPc
    ensures (e.firstPc + 0x1_0000 * e.lastPc) % PcValues(abi) == e.firstPc
  {
    Small(e.entryPc, if abi.V2? then 0x1_0000 else 0x800);
    Small(e.entryPc, PcValues(abi));
    Small(e.firstPc, PcValues(abi));
    Small(e.lastPc, PcValues(abi));
    TwoFields(e.firstPc, 0x1_0000, e.lastPc);
    LowHalf(e.firstPc + 0x1_0000 * e.lastPc, abi);
  }

  lemma EntryCanonical(w: seq<word>, abi: Abi)
    requires |w| == 8 && ReservedClear(w, abi)
    ensures EntryWords(DecodeEntry(w, abi), abi) == w
  {
    DivModFacts(w[0], 0x10);
    DivModFacts(w[1], 0x1_0000);
    DivModFacts(w[7], 0x1_0000);
    LowHalf(w[1], abi);
    Small(w[1] / 0x1_0000, PcValues(abi));
    Small(w[7] / 0x1_0000, 0x1_0000);
    Small(w[2], 0x2_0000);
    Small(w[3], 0x2_0000);
    Small(w[4], 0x1_0000);
    Small(w[5], 0x100_0000);
    Small(w[0] / 0x10, PcValues(abi));
    BoundedFields(DecodeEntry(w, abi), abi);
  }

  // ---------------------------------------------------------------- Words in bytes

  /** Little-endian words, one after the other. */
  function Pack(words: seq<nat>): (bytes: seq<byte>)
    ensures |bytes| == 4 * |words|
  {
    if words == [] then [] else WordBytesLE(words[0]) + Pack(words[1..])
  }

  function WordAt(bytes: seq<byte>, offset: nat): word
    requires offset + 4 <= |bytes|
  {
    FromLittleEndian(bytes[offset..offset + 4])
  }

  function WordsAt(bytes: seq<byte>, offset: nat, count: nat): (words: seq<word>)
    requires offset + 4 * count <= |bytes|
    ensures |words| == count
  {
    seq(count, k requires 0 <= k < count => WordAt(bytes, offset + 4 * k))
  }

  lemma {:induction false} PackAt(words: seq<nat>, k: nat)
    requires k < |words|
    ensures Pack(words)[4 * k..4 * k + 4] == WordBytesLE(words[k])
    decreases k
  {
    if k == 0 {
    } else {
      PackAt(words[1..], k - 1);
      assert Pack(words)[4 * k..4 * k + 4] == Pack(words[1..])[4 * (k - 1)..4 * (k - 1) + 4];
    }
  }

  predicate AllWords(values: seq<nat>) {
    forall k :: 0 <= k < |values| ==> values[k] < 0x1_0000_0000
  }

  lemma ReadBack(bytes: seq<byte>, offset: nat, w: nat)
    requires offset + 4 <= |bytes| && w < 0x1_0000_0000 && bytes[offset..offset + 4] == WordBytesLE(w)
    ensures WordAt(bytes, offset) == w
  {
    hide FromLittleEndian, WordBytesLE;
    WordOfBytes(w);
  }

  /** Words packed anywhere in a byte string are read back. */
  lemma PackedWord(all: seq<byte>, offset: nat, words: seq<nat>, k: nat)
    requires offset + 4 * |words| <= |all| && all[offset..offset + 4 * |words|] == Pack(words)
    requires k < |words| && words[k] < 0x1_0000_0000
    ensures WordAt(all, offset + 4 * k) == words[k]
  {
    hide *;
    PackAt(words, k);
    SubSlice(all, offset, 4 * |words|, 4 * k, 4 * k + 4);
    ReadBack(all, offset + 4 * k, words[k]);
  }

  /** Equal words are equal bytes. */
  lemma SameWord(a: seq<byte>, b: seq<byte>, offset: nat)
    requires offset + 4 <= |a| && offset + 4 <= |b| && WordAt(a, offset) == WordAt(b, offset)
    ensures a[offset..offset + 4] == b[offset..offset + 4]
  {
    hide FromLittleEndian, WordBytesLE;
    BytesOfWord(a[offset..offset + 4]);
    BytesOfWord(b[offset..offset + 4]);
  }

  lemma SameWords(a: seq<byte>, b: seq<byte>, offset: nat, count: nat, i: nat)
    requires |a| == |b| && offset + 4 * count <= |a| && WordsAt(a, offset, count) == WordsAt(b, offset, count)
    requires offset <= i < offset + 4 * count
    ensures a[i] == b[i]
  {
    hide WordAt;
    var k := (i - offset) / 4;
    assert WordAt(a, offset + 4 * k) == WordsAt(a, offset, count)[k] == WordsAt(b, offset, count)[k]
      == WordAt(b, offset + 4 * k);
    SameWord(a, b, offset + 4 * k);
    var at := i - offset - 4 * k;
    assert a[offset + 4 * k..offset + 4 * k + 4][at] == a[i] && b[offset + 4 * k..offset + 4 * k + 4][at] == b[i];
  }

  // ---------------------------------------------------------------- Rules shared by builder and parser

  /** The entry's capability mask covers every instruction of its range. */
  predicate MasksCover(program: seq<Instruction>, e: Entry) {
    forall pc :: e.firstPc <= pc <= e.lastPc && pc < |program| ==>
      var required := RequiredMask(program[pc]);
      if program[pc].cls == CONTROL && required != 0 && program[pc].aux == 1 then BitAnd(e.primitiveMask, required) != 0
      else BitsWithin(required, e.primitiveMask)
  }

  predicate WaitsForDma(i: Instruction) {
    || (i.cls == CONTROL && i.opcode == WAIT && i.aux == 0)
    || (i.cls == TRANSPORT && i.opcode == DMA_WAIT)
  }

  /** A wait for DMA needs one of the transport primitives: only the parser checks it. */
  predicate DmaCovered(program: seq<Instruction>, e: Entry) {
    forall pc :: e.firstPc <= pc <= e.lastPc && pc < |program| && WaitsForDma(program[pc]) ==>
      BitAnd(e.primitiveMask, DMA_MASK) != 0
  }

  function UnionMask(entries: seq<Entry>): nat
    requires |entries| == ENTRY_COUNT
  {
    BitOr(BitOr(entries[0].primitiveMask, entries[1].primitiveMask), entries[2].primitiveMask)
  }

  function ScratchEnd(entries: seq<Entry>): nat
    requires |entries| == ENTRY_COUNT
  {
    Max(Max(entries[0].scratchBase + entries[0].scratchBytes, entries[1].scratchBase + entries[1].scratchBytes),
        entries[2].scratchBase + entries[2].scratchBytes)
  }

  /** Program and entries are legal, and the verifier accepts each entry. */
  predicate EntriesLegal(program: seq<Instruction>, entries: seq<Entry>, target: Target, table: nat, abi: Abi) {
    && |entries| == ENTRY_COUNT
    && (forall k :: 0 <= k < ENTRY_COUNT ==>
      entries[k].formatId == k && ValidEntry(entries[k], |program|, target, table, abi))
    && (forall pc :: 0 <= pc < |program| ==> ValidInstruction(program[pc], target, abi))
    && (forall k :: 0 <= k < ENTRY_COUNT ==> MasksCover(program, entries[k]))
  }

  ghost predicate FlowProved(program: seq<Instruction>, entries: seq<Entry>, target: Target, abi: Abi)
    requires |entries| == ENTRY_COUNT && forall k :: 0 <= k < ENTRY_COUNT ==> ValidPcRange(entries[k], |program|, abi)
  {
    forall k :: 0 <= k < ENTRY_COUNT ==> CF.Accepts(CF.Context(program, entries[k], target, abi))
  }

  // ---------------------------------------------------------------- The builder

  /** What an image is built from. */
  datatype Contents = Contents(program: seq<Instruction>, entries: seq<Entry>, buildId: int, table: seq<byte>,
    abi: Abi) {
    predicate Encodes() {
      |entries| == ENTRY_COUNT && forall pc :: 0 <= pc < |program| ==> Encodable(program[pc])
    }
  }

  predicate BuildFits(c: Contents, target: Target) {
    && (c.abi.V2? ==> target.P5?)
    && 1 <= |c.program| <= InstructionLimit(c.abi)
    && |c.table| % 4 == 0 && |c.table| <= TABLE_SCRATCH_BYTES && (target.P3? ==> c.table == [])
    && EntriesLegal(c.program, c.entries, target, |c.table|, c.abi)
    && c.Encodes()
    && BitsWithin(UnionMask(c.entries), TargetMask(target))
  }

  ghost predicate Buildable(c: Contents, target: Target) {
    BuildFits(c, target) && FlowProved(c.program, c.entries, target, c.abi)
  }

  function ProgramWords(program: seq<Instruction>): (words: seq<nat>)
    requires forall pc :: 0 <= pc < |program| ==> Encodable(program[pc])
    ensures |words| == 2 * |program|
  {
    seq(2 * |program|, k requires 0 <= k < 2 * |program| =>
      var w := EncodeInstruction(program[k / 2]);
      if k % 2 == 0 then w % 0x1_0000_0000 else w / 0x1_0000_0000)
  }

  /** Descriptors, padding and instructions. */
  function BodyWords(c: Contents): (words: seq<nat>)
    requires c.Encodes()
    ensures |words| == 32 + 2 * |c.program|
  {
    EntryWords(c.entries[0], c.abi) + EntryWords(c.entries[1], c.abi) + EntryWords(c.entries[2], c.abi)
    + seq(8, _ => 0) + ProgramWords(c.program)
  }

  function Payload(c: Contents): (payload: seq<byte>)
    requires c.Encodes()
    ensures |payload| == 128 + 8 * |c.program| + |c.table|
  {
    Pack(BodyWords(c)) + c.table
  }

  function HeaderWords(c: Contents, crc: word): (words: seq<nat>)
    requires |c.entries| == ENTRY_COUNT
    ensures |words| == 16
  {
    [MAGIC, AbiWord(c.abi), INSTRUCTION_OFFSET + 8 * |c.program| + |c.table|, |c.program|, INSTRUCTION_OFFSET,
     if c.table != [] then INSTRUCTION_OFFSET + 8 * |c.program| else 0, |c.table|, HEADER_BYTES, ENTRY_COUNT,
     UnionMask(c.entries), ScratchEnd(c.entries), crc,
     c.buildId % 0x1_0000_0000, c.buildId / 0x1_0000_0000 % 0x1_0000_0000, 0, 0]
  }

  function Image(crc32: seq<byte> -> word, c: Contents): (image: seq<byte>)
    requires c.Encodes()
    ensures |image| == INSTRUCTION_OFFSET + 8 * |c.program| + |c.table|
  {
    Pack(HeaderWords(c, crc32(Payload(c)))) + Payload(c)
  }

  // ---------------------------------------------------------------- The parser

  type Header = h: seq<word> | |h| == 16 witness seq(16, _ => 0)

  function HeaderOf(b: seq<byte>): Header
    requires |b| >= HEADER_BYTES
  {
    WordsAt(b, 0, 16)
  }

  function ImageAbi(h: Header): Abi { if h[1] == AbiWord(V2) then V2 else V1 }

  function ProgramEnd(h: Header): nat { h[4] as int + 8 * (h[3] as int) }

  function EntriesEnd(h: Header): nat { h[7] + ENTRY_COUNT * ENTRY_BYTES }

  function TableEnd(h: Header): nat { h[5] as int + h[6] as int }

  predicate HeaderFits(h: Header, size: nat, target: Target, abi: Option<Abi>) {
    && (abi.Some? ==> h[1] == AbiWord(abi.value))
    && (h[1] == AbiWord(V1) || (target.P5? && h[1] == AbiWord(V2)))
    && h[0] == MAGIC && h[2] == size && size >= 160 && h[14] == 0 && h[15] == 0 && h[8] == ENTRY_COUNT
    && 1 <= h[3] <= InstructionLimit(ImageAbi(h))
  }

  predicate RangesFit(h: Header, size: nat, target: Target) {
    && HEADER_BYTES <= h[4] && h[4] % 64 == 0 && ProgramEnd(h) <= size
    && HEADER_BYTES <= h[7] && h[7] % ENTRY_BYTES == 0 && EntriesEnd(h) <= size
    && (ProgramEnd(h) <= h[7] || EntriesEnd(h) <= h[4])
    && h[5] % 4 == 0
    && (target.P3? ==> h[6] == 0 && h[5] == 0 && h[9] == 0 && h[10] == 0)
    && (!target.P3? ==>
          && h[6] <= TABLE_SCRATCH_BYTES && h[6] % 4 == 0 && h[5] <= size
          && (h[6] != 0 ==>
                && HEADER_BYTES <= h[5] && TableEnd(h) <= size
                && (TableEnd(h) <= h[4] || ProgramEnd(h) <= h[5])
                && (TableEnd(h) <= h[7] || EntriesEnd(h) <= h[5]))
          && BitsWithin(h[9], TargetMask(target)) && h[10] <= TABLE_SCRATCH_BYTES)
  }

  /** Header and regions lie inside the image. */
  predicate Framed(b: seq<byte>, target: Target, abi: Option<Abi>) {
    && |b| >= HEADER_BYTES
    && HeaderFits(HeaderOf(b), |b|, target, abi) && RangesFit(HeaderOf(b), |b|, target)
  }

  /** The regions lie inside the image, as far as reading them is concerned. */
  predicate Readable(b: seq<byte>) {
    |b| >= HEADER_BYTES && ProgramEnd(HeaderOf(b)) <= |b| && EntriesEnd(HeaderOf(b)) <= |b|
  }

  function DescriptorAt(b: seq<byte>, k: nat): (words: seq<word>)
    requires Readable(b) && k < ENTRY_COUNT
    ensures |words| == 8
  {
    WordsAt(b, HeaderOf(b)[7] + ENTRY_BYTES * k, 8)
  }

  function EntriesOf(b: seq<byte>): (entries: seq<Entry>)
    requires Readable(b)
    ensures |entries| == ENTRY_COUNT
  {
    seq(ENTRY_COUNT, k requires 0 <= k < ENTRY_COUNT => DecodeEntry(DescriptorAt(b, k), ImageAbi(HeaderOf(b))))
  }

  function InstructionWord(b: seq<byte>, pc: nat): (w: nat)
    requires Readable(b) && pc < HeaderOf(b)[3]
    ensures w < 0x1_0000_0000_0000_0000
  {
    WordAt(b, HeaderOf(b)[4] + 8 * pc) as int + 0x1_0000_0000 * (WordAt(b, HeaderOf(b)[4] + 8 * pc + 4) as int)
  }

  function ProgramOf(b: seq<byte>): (program: seq<Instruction>)
    requires Readable(b)
    ensures |program| == HeaderOf(b)[3]
  {
    seq(HeaderOf(b)[3], pc requires 0 <= pc < HeaderOf(b)[3] => DecodeInstruction(InstructionWord(b, pc)))
  }

  function TableOf(b: seq<byte>): seq<byte>
    requires |b| >= HEADER_BYTES
  {
    var h := HeaderOf(b);
    if h[6] != 0 && TableEnd(h) <= |b| then b[h[5]..TableEnd(h)] else []
  }

  predicate DescriptorsClear(b: seq<byte>, target: Target)
    requires Readable(b)
  {
    forall k :: 0 <= k < ENTRY_COUNT ==>
      var w := DescriptorAt(b, k);
      && ReservedClear(w, ImageAbi(HeaderOf(b)))
      && (target.P3? ==> w[2] == 0 && w[3] == 0 && w[6] == 0 && w[7] == 0)
  }

  /** The byte belongs to the header or to one of the regions. */
  predicate Occupied(h: Header, i: int) {
    i < HEADER_BYTES || h[7] <= i < EntriesEnd(h) || h[4] <= i < ProgramEnd(h) || h[5] <= i < TableEnd(h)
  }

  predicate PaddingZero(b: seq<byte>)
    requires |b| >= HEADER_BYTES
  {
    forall i :: 0 <= i < |b| && !Occupied(HeaderOf(b), i) ==> b[i] == 0
  }

  /** All checks of the parser short of the control-flow proof. */
  predicate ParseFits(crc32: seq<byte> -> word, b: seq<byte>, target: Target, abi: Option<Abi>) {
    && Framed(b, target, abi)
    && var h := HeaderOf(b);
       var entries := EntriesOf(b);
       var program := ProgramOf(b);
    && crc32(b[HEADER_BYTES..]) == h[11]
    && DescriptorsClear(b, target) && PaddingZero(b)
    && EntriesLegal(program, entries, target, h[6], ImageAbi(h))
    && (forall k :: 0 <= k < ENTRY_COUNT ==> DmaCovered(program, entries[k]))
    && h[9] == UnionMask(entries) && h[10] == ScratchEnd(entries)
  }

  ghost predicate Parses(crc32: seq<byte> -> word, b: seq<byte>, target: Target, abi: Option<Abi>) {
    ParseFits(crc32, b, target, abi) && FlowProved(ProgramOf(b), EntriesOf(b), target, ImageAbi(HeaderOf(b)))
  }

  // ---------------------------------------------------------------- Parsing what was built

  lemma HeaderBounds(c: Contents, target: Target, crc: word)
    requires BuildFits(c, target)
    ensures AllWords(HeaderWords(c, crc))
  {
    hide ValidEntry, ValidInstruction, MasksCover, Encodable, BitOr, BitsWithin;
    WithinBound(UnionMask(c.entries), TargetMask(target));
    ValidEntryBounds(c.entries[0], |c.program|, target, |c.table|, c.abi);
    ValidEntryBounds(c.entries[1], |c.program|, target, |c.table|, c.abi);
    ValidEntryBounds(c.entries[2], |c.program|, target, |c.table|, c.abi);
  }

  lemma ImageHeader(crc32: seq<byte> -> word, c: Contents, target: Target)
    requires BuildFits(c, target)
    ensures HeaderOf(Image(crc32, c)) == HeaderWords(c, crc32(Payload(c)))
    ensures Image(crc32, c)[HEADER_BYTES..] == Payload(c)
  {
    hide WordAt, Pack, HeaderWords, EntriesLegal, BitsWithin, Payload, Encodable;
    var words := HeaderWords(c, crc32(Payload(c)));
    var image := Image(crc32, c);
    HeaderBounds(c, target, crc32(Payload(c)));
    assert image[0..64] == Pack(words);
    forall k: nat | k < 16
      ensures WordAt(image, 4 * k) == words[k]
    {
      PackedWord(image, 0, words, k);
    }
  }

  /** A word of the body, found in the image. */
  lemma ImageBody(crc32: seq<byte> -> word, c: Contents, k: nat)
    requires c.Encodes() && k < 32 + 2 * |c.program| && BodyWords(c)[k] < 0x1_0000_0000
    ensures WordAt(Image(crc32, c), HEADER_BYTES + 4 * k) == BodyWords(c)[k]
  {
    hide WordAt, Pack, HeaderWords, BodyWords, Encodable;
    var header := Pack(HeaderWords(c, crc32(Payload(c))));
    var image := Image(crc32, c);
    assert image == header + Pack(BodyWords(c)) + c.table;
    assert image[HEADER_BYTES..HEADER_BYTES + 4 * |BodyWords(c)|] == Pack(BodyWords(c));
    PackedWord(image, HEADER_BYTES, BodyWords(c), k);
  }

  lemma HeaderOfBuilt(c: Contents, target: Target, abi: Option<Abi>, crc: word, h: Header)
    requires BuildFits(c, target) && (abi.None? || abi.value == c.abi) && h == HeaderWords(c, crc)
    ensures HeaderFits(h, INSTRUCTION_OFFSET + 8 * |c.program| + |c.table|, target, abi) && ImageAbi(h) == c.abi
  {
    hide EntriesLegal, Encodable, BitsWithin, UnionMask, ScratchEnd;
  }

  lemma RangesOfBuilt(c: Contents, target: Target, crc: word, h: Header)
    requires BuildFits(c, target) && h == HeaderWords(c, crc)
    ensures var size := INSTRUCTION_OFFSET + 8 * |c.program| + |c.table|;
      && RangesFit(h, size, target) && ProgramEnd(h) <= size && EntriesEnd(h) <= size
      && (c.table != [] ==> h[5] == INSTRUCTION_OFFSET + 8 * |c.program| && TableEnd(h) == size)
  {
    hide EntriesLegal, Encodable, BitsWithin, UnionMask, ScratchEnd;
    HeaderScratch(c, target);
    var n, t := |c.program|, |c.table|;
    assert h[3] == n && h[4] == 192 && h[6] == t && h[7] == 64 && h[9] == UnionMask(c.entries)
      && h[10] == ScratchEnd(c.entries);
    assert h[5] == if t != 0 then 192 + 8 * n else 0;
  }

  lemma ImageRanges(crc32: seq<byte> -> word, c: Contents, target: Target, abi: Option<Abi>)
    requires BuildFits(c, target) && (abi.None? || abi.value == c.abi)
    ensures var image := Image(crc32, c);
      && Framed(image, target, abi) && Readable(image)
      && ImageAbi(HeaderOf(image)) == c.abi && TableOf(image) == c.table
  {
    hide EntriesLegal, Encodable, BitsWithin, WordAt, Payload, HeaderFits, RangesFit, ImageAbi, HeaderOf;
    ImageHeader(crc32, c, target);
    HeaderOfBuilt(c, target, abi, crc32(Payload(c)), HeaderOf(Image(crc32, c)));
    RangesOfBuilt(c, target, crc32(Payload(c)), HeaderOf(Image(crc32, c)));
    ImageTable(crc32, c);
  }

  lemma HeaderScratch(c: Contents, target: Target)
    requires BuildFits(c, target)
    ensures ScratchEnd(c.entries) <= TABLE_SCRATCH_BYTES
    ensures target.P3? ==> ScratchEnd(c.entries) == 0 && UnionMask(c.entries) == 0
  {
    hide ValidInstruction, MasksCover, Encodable, BitsWithin;
    assert ValidEntry(c.entries[0], |c.program|, target, |c.table|, c.abi);
    assert ValidEntry(c.entries[1], |c.program|, target, |c.table|, c.abi);
    assert ValidEntry(c.entries[2], |c.program|, target, |c.table|, c.abi);
  }

  lemma ImageTable(crc32: seq<byte> -> word, c: Contents)
    requires c.Encodes()
    ensures Image(crc32, c)[INSTRUCTION_OFFSET + 8 * |c.program|..] == c.table
  {
    hide Pack, HeaderWords, BodyWords, Encodable;
  }

  lemma ImageDescriptor(crc32: seq<byte> -> word, c: Contents, target: Target, k: nat)
    requires BuildFits(c, target) && k < ENTRY_COUNT && Readable(Image(crc32, c))
      && HeaderOf(Image(crc32, c))[7] == HEADER_BYTES
    ensures DescriptorAt(Image(crc32, c), k) == EntryWords(c.entries[k], c.abi)
  {
    hide ValidEntry, ValidInstruction, MasksCover, Encodable, BitOr, BitsWithin, WordAt, EntryWords, Image;
    EntryRoundTrip(c.entries[k], |c.program|, target, |c.table|, c.abi);
    forall j: nat | j < 8
      ensures DescriptorAt(Image(crc32, c), k)[j] == EntryWords(c.entries[k], c.abi)[j]
    {
      assert BodyWords(c)[8 * k + j] == EntryWords(c.entries[k], c.abi)[j];
      ImageBody(crc32, c, 8 * k + j);
    }
  }

  lemma ImageEntries(crc32: seq<byte> -> word, c: Contents, target: Target)
    requires BuildFits(c, target) && Readable(Image(crc32, c)) && HeaderOf(Image(crc32, c))[7] == HEADER_BYTES
    requires ImageAbi(HeaderOf(Image(crc32, c))) == c.abi
    ensures EntriesOf(Image(crc32, c)) == c.entries && DescriptorsClear(Image(crc32, c), target)
  {
    hide ValidInstruction, MasksCover, Encodable, BitOr, BitsWithin, WordAt, Image, DecodeEntry, ReservedClear;
    forall k: nat | k < ENTRY_COUNT
      ensures DecodeEntry(DescriptorAt(Image(crc32, c), k), c.abi) == c.entries[k]
      ensures ReservedClear(DescriptorAt(Image(crc32, c), k), c.abi)
      ensures target.P3? ==> var w := DescriptorAt(Image(crc32, c), k); w[2] == 0 && w[3] == 0 && w[6] == 0 && w[7] == 0
    {
      ImageDescriptor(crc32, c, target, k);
      EntryRoundTrip(c.entries[k], |c.program|, target, |c.table|, c.abi);
      assert ValidEntry(c.entries[k], |c.program|, target, |c.table|, c.abi);
    }
  }

  lemma ImageProgram(crc32: seq<byte> -> word, c: Contents, target: Target)
    requires c.Encodes() && Readable(Image(crc32, c))
    requires HeaderOf(Image(crc32, c))[4] == INSTRUCTION_OFFSET && HeaderOf(Image(crc32, c))[3] == |c.program|
    ensures ProgramOf(Image(crc32, c)) == c.program
  {
    hide WordAt, Image, DecodeInstruction, EncodeInstruction, EntryWords, Encodable;
    var image := Image(crc32, c);
    forall pc: nat | pc < |c.program|
      ensures DecodeInstruction(InstructionWord(image, pc)) == c.program[pc]
    {
      var w := EncodeInstruction(c.program[pc]);
      InstructionRoundTrip(c.program[pc]);
      DivModFacts(w, 0x1_0000_0000);
      assert BodyWords(c)[32 + 2 * pc] == ProgramWords(c.program)[2 * pc] == w % 0x1_0000_0000;
      assert BodyWords(c)[32 + 2 * pc + 1] == ProgramWords(c.program)[2 * pc + 1] == w / 0x1_0000_0000;
      ImageBody(crc32, c, 32 + 2 * pc);
      ImageBody(crc32, c, 32 + 2 * pc + 1);
    }
  }

  lemma ImagePadding(crc32: seq<byte> -> word, c: Contents, target: Target)
    requires BuildFits(c, target)
    ensures PaddingZero(Image(crc32, c))
  {
    hide EntriesLegal, Encodable, BitsWithin, WordAt, Image, EntryWords, UnionMask, ScratchEnd, Payload;
    var image := Image(crc32, c);
    ImageHeader(crc32, c, target);
    var h := HeaderOf(image);
    assert h == HeaderWords(c, crc32(Payload(c)));
    forall i: nat | i < |image| && !Occupied(h, i)
      ensures image[i] == 0
    {
      assert 160 <= i < 192;
      PaddingByte(crc32, c, i);
    }
  }

  lemma PaddingByte(crc32: seq<byte> -> word, c: Contents, i: nat)
    requires c.Encodes() && 160 <= i < 192
    ensures Image(crc32, c)[i] == 0
  {
    hide Encodable, EntryWords, ProgramWords, HeaderWords, Pack;
    var k := (i - HEADER_BYTES) / 4;
    assert BodyWords(c)[k] == 0;
    PackAt(BodyWords(c), k);
    var at := i - HEADER_BYTES - 4 * k;
    assert Pack(BodyWords(c))[4 * k..4 * k + 4][at] == Pack(BodyWords(c))[i - HEADER_BYTES];
  }

  /** Parsing what was built gives back program, entries, table and header, and fails
      exactly when a DMA wait lacks a transport primitive. */
  lemma BuildThenParse(crc32: seq<byte> -> word, c: Contents, target: Target, abi: Option<Abi>)
    requires Buildable(c, target) && (abi.None? || abi.value == c.abi)
    ensures var image := Image(crc32, c);
      && Readable(image)
      && ProgramOf(image) == c.program && EntriesOf(image) == c.entries && TableOf(image) == c.table
      && HeaderOf(image) == HeaderWords(c, crc32(Payload(c)))
      && (Parses(crc32, image, target, abi) <==> forall k :: 0 <= k < ENTRY_COUNT ==>
        DmaCovered(c.program, c.entries[k]))
  {
    hide ValidEntry, ValidInstruction, MasksCover, Encodable, BitOr, BitsWithin, WordAt, Image, Payload, BodyWords,
      DecodeEntry, ReservedClear, DmaCovered, PaddingZero, CF.Accepts, RangesFit, HeaderFits;
    ImageHeader(crc32, c, target);
    ImageRanges(crc32, c, target, abi);
    ImageEntries(crc32, c, target);
    ImageProgram(crc32, c, target);
    ImagePadding(crc32, c, target);
  }

  // ---------------------------------------------------------------- One image for one content

  /** Two images laid out alike that parse to the same parts. */
  ghost predicate SameParts(a: seq<byte>, b: seq<byte>) {
    && |a| == |b| && Readable(a) && Readable(b)
    && ImageAbi(HeaderOf(a)) == ImageAbi(HeaderOf(b)) && HeaderOf(a)[3..8] == HeaderOf(b)[3..8]
    && (HeaderOf(a)[6] != 0 ==> TableEnd(HeaderOf(a)) <= |a|)
    && ProgramOf(a) == ProgramOf(b) && EntriesOf(a) == EntriesOf(b) && TableOf(a) == TableOf(b)
  }

  lemma SameLayout(a: seq<byte>, b: seq<byte>)
    requires SameParts(a, b)
    ensures forall k :: 3 <= k < 8 ==> HeaderOf(a)[k] == HeaderOf(b)[k]
  {
    hide WordAt, ProgramOf, EntriesOf, TableOf;
    forall k | 3 <= k < 8
      ensures HeaderOf(a)[k] == HeaderOf(b)[k]
    {
      assert HeaderOf(a)[3..8][k - 3] == HeaderOf(b)[3..8][k - 3];
    }
  }

  lemma SameDescriptor(a: seq<byte>, b: seq<byte>, target: Target, k: nat)
    requires SameParts(a, b) && DescriptorsClear(a, target) && DescriptorsClear(b, target) && k < ENTRY_COUNT
    ensures DescriptorAt(a, k) == DescriptorAt(b, k)
  {
    hide WordAt, DecodeEntry, EntryWords, ReservedClear, HeaderOf, ProgramOf, TableOf, DescriptorAt;
    var abi := ImageAbi(HeaderOf(a));
    EntryCanonical(DescriptorAt(a, k), abi);
    EntryCanonical(DescriptorAt(b, k), abi);
    assert EntriesOf(a)[k] == EntriesOf(b)[k];
  }

  lemma SameInstruction(a: seq<byte>, b: seq<byte>, pc: nat)
    requires SameParts(a, b) && pc < HeaderOf(a)[3]
    ensures pc < HeaderOf(b)[3]
    ensures WordAt(a, HeaderOf(a)[4] + 8 * pc) == WordAt(b, HeaderOf(b)[4] + 8 * pc)
    ensures WordAt(a, HeaderOf(a)[4] + 8 * pc + 4) == WordAt(b, HeaderOf(b)[4] + 8 * pc + 4)
  {
    hide WordAt, DecodeInstruction, EncodeInstruction, HeaderOf, EntriesOf, TableOf;
    assert |ProgramOf(a)| == |ProgramOf(b)|;
    InstructionCanonical(InstructionWord(a, pc));
    InstructionCanonical(InstructionWord(b, pc));
    assert ProgramOf(a)[pc] == ProgramOf(b)[pc];
    assert InstructionWord(a, pc) == InstructionWord(b, pc);
  }

  lemma SameProgramByte(a: seq<byte>, b: seq<byte>, i: nat)
    requires SameParts(a, b) && HeaderOf(a)[4] <= i < ProgramEnd(HeaderOf(a))
    ensures i < |a| && a[i] == b[i]
  {
    hide WordAt, ProgramOf, EntriesOf, TableOf, HeaderOf;
    SameLayout(a, b);
    var pc := (i - HeaderOf(a)[4]) / 8;
    SameInstruction(a, b, pc);
    var at := HeaderOf(a)[4] + 8 * pc;
    SameWord(a, b, at);
    SameWord(a, b, at + 4);
    if i < at + 4 {
      assert a[at..at + 4][i - at] == a[i] && b[at..at + 4][i - at] == b[i];
    } else {
      assert a[at + 4..at + 8][i - at - 4] == a[i] && b[at + 4..at + 8][i - at - 4] == b[i];
    }
  }

  lemma SameEntryByte(a: seq<byte>, b: seq<byte>, target: Target, i: nat)
    requires SameParts(a, b) && DescriptorsClear(a, target) && DescriptorsClear(b, target)
    requires HeaderOf(a)[7] <= i < EntriesEnd(HeaderOf(a))
    ensures i < |a| && a[i] == b[i]
  {
    hide WordAt, ProgramOf, EntriesOf, TableOf, HeaderOf, DescriptorsClear;
    SameLayout(a, b);
    var k := (i - HeaderOf(a)[7]) / ENTRY_BYTES;
    SameDescriptor(a, b, target, k);
    SameWords(a, b, HeaderOf(a)[7] + ENTRY_BYTES * k, 8, i);
  }

  lemma SameTableByte(a: seq<byte>, b: seq<byte>, i: nat)
    requires SameParts(a, b) && HeaderOf(a)[5] <= i < TableEnd(HeaderOf(a))
    ensures i < |a| && a[i] == b[i]
  {
    hide WordAt, ProgramOf, EntriesOf, HeaderOf;
    SameLayout(a, b);
    var at := HeaderOf(a)[5];
    assert TableOf(a)[i - at] == a[i] && TableOf(b)[i - at] == b[i];
  }

  /** Behind the header, equal parts are equal bytes: every byte is decoded or zero. */
  lemma PayloadDetermined(a: seq<byte>, b: seq<byte>, target: Target)
    requires SameParts(a, b) && DescriptorsClear(a, target) && DescriptorsClear(b, target) && PaddingZero(a)
      && PaddingZero(b)
    ensures a[HEADER_BYTES..] == b[HEADER_BYTES..]
  {
    hide WordAt, ProgramOf, EntriesOf, TableOf, HeaderOf, DescriptorsClear;
    SameLayout(a, b);
    var h := HeaderOf(a);
    forall i: nat | HEADER_BYTES <= i < |a|
      ensures a[i] == b[i]
    {
      if h[7] <= i < EntriesEnd(h) {
        SameEntryByte(a, b, target, i);
      } else if h[4] <= i < ProgramEnd(h) {
        SameProgramByte(a, b, i);
      } else if h[5] <= i < TableEnd(h) {
        SameTableByte(a, b, i);
      } else {
        assert !Occupied(h, i) && !Occupied(HeaderOf(b), i);
      }
    }
  }

  lemma HeaderDetermined(a: seq<byte>, b: seq<byte>)
    requires |a| == |b| >= HEADER_BYTES && HeaderOf(a) == HeaderOf(b)
    ensures a[..HEADER_BYTES] == b[..HEADER_BYTES]
  {
    hide WordAt;
    forall i: nat | i < HEADER_BYTES
      ensures a[i] == b[i]
    {
      SameWords(a, b, 0, 16, i);
    }
  }

  /** Canonicity: two accepted images with the same header, program, entries and table
      are the same bytes. */
  lemma ImagesCanonical(crc32: seq<byte> -> word, a: seq<byte>, b: seq<byte>, target: Target, abi: Option<Abi>)
    requires Parses(crc32, a, target, abi) && Parses(crc32, b, target, abi)
    requires HeaderOf(a) == HeaderOf(b) && ProgramOf(a) == ProgramOf(b) && EntriesOf(a) == EntriesOf(b)
      && TableOf(a) == TableOf(b)
    ensures a == b
  {
    hide WordAt, ProgramOf, EntriesOf, TableOf, DescriptorsClear, PaddingZero, EntriesLegal, DmaCovered, FlowProved,
      HeaderOf;
    HeaderDetermined(a, b);
    PayloadDetermined(a, b, target);
    assert a == a[..HEADER_BYTES] + a[HEADER_BYTES..] && b == b[..HEADER_BYTES] + b[HEADER_BYTES..];
  }

  /** The regions lie where the builder puts them. */
  predicate StandardLayout(h: Header, size: nat) {
    && h[4] == INSTRUCTION_OFFSET && h[7] == HEADER_BYTES
      && size == INSTRUCTION_OFFSET + 8 * (h[3] as int) + h[6] as int
    && h[5] as int == if h[6] != 0 then INSTRUCTION_OFFSET + 8 * (h[3] as int) else 0
  }

  function Parsed(b: seq<byte>): Contents
    requires Readable(b)
  {
    var h := HeaderOf(b);
    Contents(ProgramOf(b), EntriesOf(b), h[12] as int + 0x1_0000_0000 * (h[13] as int), TableOf(b), ImageAbi(h))
  }

  lemma ParsedFits(crc32: seq<byte> -> word, b: seq<byte>, target: Target, abi: Option<Abi>)
    requires Parses(crc32, b, target, abi)
    ensures BuildFits(Parsed(b), target) && |TableOf(b)| == HeaderOf(b)[6]
  {
    hide WordAt, DescriptorsClear, PaddingZero, DmaCovered, FlowProved, ValidEntry, ValidInstruction, MasksCover,
      BitsWithin, HeaderOf,
      DecodeInstruction, InstructionWord, BitOr;
    var program := ProgramOf(b);
    forall pc: nat | pc < |program|
      ensures Encodable(program[pc])
    {
      InstructionCanonical(InstructionWord(b, pc));
    }
    ZeroWithin(TargetMask(target));
  }

  lemma ZeroWithin(mask: nat)
    ensures BitsWithin(0, mask)
  {
  }

  lemma HeaderRebuilt(crc32: seq<byte> -> word, b: seq<byte>, target: Target, abi: Option<Abi>)
    requires Parses(crc32, b, target, abi) && StandardLayout(HeaderOf(b), |b|)
    ensures |Parsed(b).entries| == ENTRY_COUNT && HeaderWords(Parsed(b), crc32(b[HEADER_BYTES..])) == HeaderOf(b)
  {
    hide WordAt, DescriptorsClear, PaddingZero, EntriesLegal, DmaCovered, FlowProved, HeaderOf, ProgramOf, EntriesOf,
      TableOf, BitsWithin,
      UnionMask, ScratchEnd;
    ParsedFits(crc32, b, target, abi);
    var h := HeaderOf(b);
    TwoFields(h[12], 0x1_0000_0000, h[13]);
    Small(h[13], 0x1_0000_0000);
    var words := HeaderWords(Parsed(b), crc32(b[HEADER_BYTES..]));
    assert forall k :: 0 <= k < 16 ==> words[k] == h[k];
  }

  /** The builder inverts the parser: an accepted image in the builder's layout is
      exactly what the builder makes of the parsed contents. */
  lemma ParseThenBuild(crc32: seq<byte> -> word, b: seq<byte>, target: Target, abi: Option<Abi>)
    requires Parses(crc32, b, target, abi) && StandardLayout(HeaderOf(b), |b|)
    ensures Buildable(Parsed(b), target) && Image(crc32, Parsed(b)) == b
  {
    hide WordAt, DescriptorsClear, PaddingZero, EntriesLegal, DmaCovered, FlowProved, Image, Payload, HeaderOf,
      HeaderWords,
      ProgramOf, EntriesOf, TableOf, BitsWithin, BitOr, Encodable, UnionMask, ScratchEnd, HeaderFits, RangesFit;
    var c := Parsed(b);
    ParsedFits(crc32, b, target, abi);
    HeaderRebuilt(crc32, b, target, abi);
    var image := Image(crc32, c);
    BuildThenParse(crc32, c, target, Some(c.abi));
    BuiltParts(crc32, c, target);
    ImageHeader(crc32, c, target);
    assert HeaderOf(image)[3..8] == HeaderOf(b)[3..8] by {
      LayoutWords(c, crc32(Payload(c)), crc32(b[HEADER_BYTES..]));
    }
    TableInside(HeaderOf(b), |b|);
    PayloadDetermined(b, image, target);
    assert HeaderOf(image) == HeaderOf(b);
    HeaderDetermined(image, b);
    assert image == image[..HEADER_BYTES] + image[HEADER_BYTES..] && b == b[..HEADER_BYTES] + b[HEADER_BYTES..];
  }

  lemma BuiltParts(crc32: seq<byte> -> word, c: Contents, target: Target)
    requires BuildFits(c, target)
    ensures var image := Image(crc32, c);
      Readable(image) && DescriptorsClear(image, target) && PaddingZero(image) && ImageAbi(HeaderOf(image)) == c.abi
  {
    hide EntriesLegal, Encodable, BitsWithin, WordAt, Payload, DescriptorsClear, PaddingZero, Image, UnionMask,
      ScratchEnd;
    ImageHeader(crc32, c, target);
    ImageRanges(crc32, c, target, None);
    ImageEntries(crc32, c, target);
    ImagePadding(crc32, c, target);
  }

  /** The layout words do not depend on the check value. */
  lemma LayoutWords(c: Contents, crc: word, other: word)
    requires |c.entries| == ENTRY_COUNT
    ensures HeaderWords(c, crc)[3..8] == HeaderWords(c, other)[3..8]
  {
    hide UnionMask, ScratchEnd;
  }

  lemma TableInside(h: Header, size: nat)
    requires StandardLayout(h, size)
    ensures h[6] != 0 ==> TableEnd(h) <= size
  {
  }

  // ---------------------------------------------------------------- The programs

  method ProveFlow(program: seq<Instruction>, entries: seq<Entry>, target: Target, abi: Abi) returns (ok: bool)
    requires |entries| == ENTRY_COUNT && forall k :: 0 <= k < ENTRY_COUNT ==> ValidPcRange(entries[k], |program|, abi)
    ensures ok == FlowProved(program, entries, target, abi)
  {
    hide CF.Accepts, CF.Describes;
    for k := 0 to ENTRY_COUNT
      invariant forall j :: 0 <= j < k ==> CF.Accepts(CF.Context(program, entries[j], target, abi))
    {
      var report := CF.ControlFlowReport(CF.Context(program, entries[k], target, abi));
      if report.Rejected? {
        return false;
      }
    }
    ok := true;
  }

  /** `build_apumc` */
  method Build(crc32: seq<byte> -> word, c: Contents, target: Target) returns (r: Option<seq<byte>>)
    ensures r.Some? <==> Buildable(c, target)
    ensures r.Some? ==> r.value == Image(crc32, c)
  {
    hide FlowProved, Image, ValidInstruction, MasksCover, BitsWithin;
    if !BuildFits(c, target) {
      return None;
    }
    assert forall k :: 0 <= k < ENTRY_COUNT ==> ValidPcRange(c.entries[k], |c.program|, c.abi);
    var ok := ProveFlow(c.program, c.entries, target, c.abi);
    r := if ok then Some(Image(crc32, c)) else None;
  }

  /** Marks the bytes of one region. */
  method Occupy(occupied: array<bool>, lo: nat, hi: nat)
    requires lo <= hi <= occupied.Length
    modifies occupied
    ensures forall i :: 0 <= i < occupied.Length ==> (occupied[i] <==> old(occupied[i]) || lo <= i < hi)
  {
    for i := lo to hi
      invariant forall j :: 0 <= j < occupied.Length ==> (occupied[j] <==> old(occupied[j]) || lo <= j < i)
    {
      occupied[i] := true;
    }
  }

  /** The padding check with its map of occupied bytes. */
  method CheckPadding(b: seq<byte>) returns (ok: bool)
    requires Readable(b) && (HeaderOf(b)[6] != 0 ==> TableEnd(HeaderOf(b)) <= |b|)
    ensures ok == PaddingZero(b)
  {
    hide WordAt, HeaderOf;
    var h := HeaderOf(b);
    var occupied := new bool[|b|](_ => false);
    Occupy(occupied, 0, HEADER_BYTES);
    Occupy(occupied, h[7], EntriesEnd(h));
    Occupy(occupied, h[4], ProgramEnd(h));
    if h[6] != 0 {
      Occupy(occupied, h[5], TableEnd(h));
    }
    assert forall i :: 0 <= i < |b| ==> (occupied[i] <==> Occupied(h, i));
    for i := 0 to |b|
      invariant forall j :: 0 <= j < |b| ==> (occupied[j] <==> Occupied(h, j))
      invariant forall j :: 0 <= j < i && !Occupied(h, j) ==> b[j] == 0
    {
      if !occupied[i] && b[i] != 0 {
        assert !Occupied(h, i);
        return false;
      }
    }
    ok := true;
  }

  /** `parse_apumc` */
  method Parse(crc32: seq<byte> -> word, b: seq<byte>, target: Target, abi: Option<Abi>)
    returns (r: Option<(seq<Instruction>, seq<Entry>, Header)>)
    ensures r.Some? <==> Parses(crc32, b, target, abi)
    ensures r.Some? ==> r.value == (ProgramOf(b), EntriesOf(b), HeaderOf(b))
  {
    hide FlowProved, WordAt, HeaderOf, ProgramOf, EntriesOf, PaddingZero, DescriptorsClear, DmaCovered,
      ValidInstruction, MasksCover,
      BitsWithin, UnionMask;
    if !Framed(b, target, abi) {
      return None;
    }
    var h := HeaderOf(b);
    if crc32(b[HEADER_BYTES..]) != h[11] || !DescriptorsClear(b, target) {
      return None;
    }
    var entries, program := EntriesOf(b), ProgramOf(b);
    var clear := CheckPadding(b);
    if !clear || !EntriesLegal(program, entries, target, h[6], ImageAbi(h)) {
      return None;
    }
    var proved := ProveFlow(program, entries, target, ImageAbi(h));
    if !proved || !(forall k :: 0 <= k < ENTRY_COUNT ==> DmaCovered(program, entries[k])) {
      return None;
    }
    if h[9] != UnionMask(entries) || h[10] != ScratchEnd(entries) {
      return None;
    }
    r := Some((program, entries, h));
  }
}

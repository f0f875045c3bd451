/** What the engine's bitstream, entropy and local instructions do, one by one, stated on
    the engine call itself: the bits of the stream, the bytes of the memory and the words of
    the FIFOs they read, and what they leave. */
module Execution {
  import opened Common
  import opened Arithmetic
  import opened BitStream
  import opened Isa
  import opened Memory
  import opened Transport
  import opened Machine
  import opened Primitives
  import Crc
  import I = Instructions
  import R = Reservoir
  import B = BitReader
  import N = Entropy
  import Residual

  /** The call succeeds, writes these registers, leaves these bits to read and moves the
      position by as many bits as it consumed; memory and output stay as they were. */
  ghost predicate Reads(p: Prims, result: EngineResult, writes: map<nat, int>, left: seq<bit>) {
    && result.Executed? && result.writes == writes && result.prims == p.(input := result.prims.input)
    && R.Stream(result.prims.input) == left && result.prims.input.pushed == p.input.pushed
    && |left| <= |R.Stream(p.input)|
    && result.prims.input.position % 8 == (p.input.position + |R.Stream(p.input)| - |left|) % 8
  }

  /** The call fails for want of bits and consumes nothing. */
  ghost predicate Starves(p: Prims, result: EngineResult) {
    && result.Faulted? && result.fault.reason == 9 && result.prims == p.(input := result.prims.input)
    && R.Stream(result.prims.input) == R.Stream(p.input) && result.prims.input.position == p.input.position
  }

  // ---------------------------------------------------------------- Bitstream

  /** GET writes the number that the next bits spell and consumes them; PEEK writes it and
      consumes nothing; SKIP consumes them and writes nothing. */
  lemma BitReads(kernel: KernelEngine, i: Instruction, r: Registers, e: Entry, p: Prims)
    requires i.cls == BITSTREAM && i.opcode in {PEEK, GET, SKIP}
    ensures var width, stream := i.immediate % 64, R.Stream(p.input);
      var result := Perform(kernel, i, r, e, p);
      if |stream| < width then Starves(p, result)
      else
        && (i.opcode == GET ==> Reads(p, result, map[i.dst := Value(stream[..width])], stream[width..]))
        && (i.opcode == PEEK ==> Reads(p, result, map[i.dst := Value(stream[..width])], stream))
        && (i.opcode == SKIP ==> Reads(p, result, map[], stream[width..]))
  {
    hide R.Get, R.Peek, R.Stream, Value;
    R.GetReadsStream(p.input, i.immediate % 64);
    R.PeekReadsStream(p.input, i.immediate % 64);
  }

  /** ALIGN consumes the bits that are missing to a multiple of eight. */
  lemma Aligns(kernel: KernelEngine, i: Instruction, r: Registers, e: Entry, p: Prims, n: nat)
    requires i.cls == BITSTREAM && i.opcode == ALIGN && n < 8 && (p.input.position + n) % 8 == 0
    ensures var stream, result := R.Stream(p.input), Perform(kernel, i, r, e, p);
      if |stream| < n then Starves(p, result) else Reads(p, result, map[], stream[n..])
  {
    hide R.Get, R.Stream, Value;
    assert B.ToBoundary(p.input.position) == n;
    R.GetReadsStream(p.input, n);
  }

  /** REFILL changes nothing in the stream; it writes how many bits, up to 64, lie unpacked,
      which are as many as asked for or all there are. */
  lemma Refills(kernel: KernelEngine, i: Instruction, r: Registers, e: Entry, p: Prims)
    requires i.cls == BITSTREAM && i.opcode == REFILL
    ensures var stream, result := R.Stream(p.input), Perform(kernel, i, r, e, p);
      var unpacked := |result.prims.input.bits|;
      && Reads(p, result, map[i.dst := if unpacked < 64 then unpacked else 64], stream)
      && (unpacked >= i.immediate % 64 || unpacked == |stream|)
  {
    hide R.Refill;
    R.RefillKeepsStream(p.input, i.immediate % 64);
  }

  /** FRAME_SYNC aligns, then finds the first byte position at which the pattern stands,
      writes the number of bytes before it and leaves the pattern at the front. It gives up
      only when none of the positions allowed matches, or the bits run out. */
  lemma Synchronizes(kernel: KernelEngine, i: Instruction, r: Registers, e: Entry, p: Prims, n: nat)
    requires i.cls == BITSTREAM && i.opcode == FRAME_SYNC && n < 8 && (p.input.position + n) % 8 == 0
    ensures var stream, result := R.Stream(p.input), Perform(kernel, i, r, e, p);
      var pattern, mask, width := Reg(r, i.src0) % 0x1_0000, Reg(r, i.src1) % 0x1_0000, i.aux % 32;
      && result.prims == p.(input := result.prims.input)
      && (|stream| < n ==> Starves(p, result))
      && (|stream| >= n && result.Executed? ==>
            exists k: nat ::
              && k < i.immediate && n + 8 * k <= |stream| && result.writes == map[i.dst := k]
              && R.Stream(result.prims.input) == stream[n + 8 * k..]
              && Matches(stream[n + 8 * k..], pattern, mask, width)
              && NoMatch(stream[n..], pattern, mask, width, k))
      && (|stream| >= n && result.Faulted? ==>
            || (result.fault == NO_SYNC && NoMatch(stream[n..], pattern, mask, width, i.immediate))
            || result.fault == NO_BITS)
  {
    hide R.Get, R.Stream, Value, Matches, NoMatch, Sync, Aligned, Reg;
    var stream := R.Stream(p.input);
    AlignedStart(p.input, n);
    var start := Aligned(p.input).0;
    if |stream| >= n {
      var pattern, mask, width := Reg(r, i.src0) % 0x1_0000, Reg(r, i.src1) % 0x1_0000, i.aux % 32;
      SyncFindsFirst(start, pattern, mask, width, 0, i.immediate);
      SyncFaults(start, pattern, mask, width, 0, i.immediate);
      var (found, result) := Sync(start, pattern, mask, width, 0, i.immediate);
      if result.Ok? {
        var k := result.value;
        assert stream[n..][8 * k..] == stream[n + 8 * k..];
      }
    }
  }

  lemma AlignedStart(input: R.Reservoir, n: nat)
    requires n < 8 && (input.position + n) % 8 == 0
    ensures var stream, (start, ready) := R.Stream(input), Aligned(input);
      if |stream| >= n then ready.Some? && R.Stream(start) == stream[n..]
      else ready.None? && R.Stream(start) == stream && start.position == input.position
  {
    hide R.Get, R.Stream, Value;
    assert B.ToBoundary(input.position) == n;
    R.GetReadsStream(input, n);
    var stream := R.Stream(input);
    if n == 0 {
      assert stream[n..] == stream;
    } else {
      assert Aligned(input) == R.Get(input, n);
    }
  }

  lemma {:induction false} SyncFaults(input: R.Reservoir, pattern: nat, mask: nat, width: nat, skipped: nat, limit: nat)
    ensures var result := Sync(input, pattern, mask, width, skipped, limit).1;
      result.Err? ==> result.error == NO_SYNC || result.error == NO_BITS
    decreases limit - skipped
  {
    hide R.Peek, R.Get, BitAnd;
    if skipped + 1 < limit {
      SyncFaults(R.Get(R.Peek(input, width).0, 8).0, pattern, mask, width, skipped + 1, limit);
    }
  }

  /** CRC8 and CRC16 take the check value of a byte string and one further byte to the check
      value of the longer string, with the generators of the codec. */
  lemma CrcExtends(kernel: KernelEngine, i: Instruction, r: Registers, e: Entry, p: Prims, data: seq<byte>, last: byte)
    requires i.cls == BITSTREAM && i.opcode in {CRC8, CRC16} && Reg(r, i.src1) % 0x100 == last
    requires Reg(r, i.src0) == if i.opcode == CRC8 then Crc.CrcOf(8, 0x07, data) else Crc.CrcOf(16, 0x8005, data)
    ensures Perform(kernel, i, r, e, p) == Executed(p, map[i.dst :=
      if i.opcode == CRC8 then Crc.CrcOf(8, 0x07, data + [last]) else Crc.CrcOf(16, 0x8005, data + [last])])
  {
    hide Crc.CrcOf, CrcStep;
    if i.opcode == CRC8 {
      StepExtends(8, 0x07, data, Reg(r, i.src1), last);
    } else {
      StepExtends(16, 0x8005, data, Reg(r, i.src1), last);
    }
  }

  lemma StepExtends(width: nat, poly: nat, data: seq<byte>, src1: word, last: byte)
    requires width >= 1 && poly % 2 == 1 && src1 % 0x100 == last
    ensures CrcStep(width, poly, Crc.CrcOf(width, poly, data), src1) == Crc.CrcOf(width, poly, data + [last])
  {
    hide Crc.Register, Crc.Remainder, NatBits, Value, Bits;
    var g := Crc.GeneratorOf(width, poly);
    var state := Crc.Remainder(g, Bits(data));
    NatOfValue(state);
    assert Pow2(8) == 0x100;
    Crc.BitsOfMod(src1, 8);
    Crc.RemainderByte(g, data + [last], |data|);
    assert (data + [last])[..|data|] == data && (data + [last])[..|data| + 1] == data + [last];
  }

  // ---------------------------------------------------------------- Entropy

  /** The call succeeds, writes these registers and leaves these bits to read. */
  ghost predicate Decodes(p: Prims, result: EngineResult, writes: map<nat, int>, left: seq<bit>) {
    && result.Executed? && result.writes == writes && result.prims == p.(input := result.prims.input)
    && R.Stream(result.prims.input) == left
  }

  /** UNARY counts the bits of its polarity up to the first other one, and fails if there
      are more than its limit. */
  lemma CountsRun(kernel: KernelEngine, i: Instruction, r: Registers, e: Entry, p: Prims, n: nat, tail: seq<bit>)
    requires i.cls == ENTROPY && i.opcode == UNARY
    requires var polarity: bit := i.aux % 2; R.Stream(p.input) == seq(n, _ => polarity) + [1 - polarity] + tail
    ensures var result := Perform(kernel, i, r, e, p);
      if n <= i.immediate then Decodes(p, result, map[i.dst := n], tail)
      else result.Faulted? && result.fault == N.BAD_CODE
  {
    hide R.Stream, Unary;
    I.UnaryCounts(p.input, i.aux % 2, 0, i.immediate, n, tail);
  }

  /** RICE4 and RICE5 read a Rice code with the parameter in four or five bits of `src0`:
      whatever signed value was written is returned as a word. */
  lemma ReadsRice(kernel: KernelEngine, i: Instruction, r: Registers, e: Entry, p: Prims, value: int, tail: seq<bit>)
    requires i.cls == ENTROPY && i.opcode in {RICE4, RICE5}
    requires var parameter := Reg(r, i.src0) % (if i.opcode == RICE4 then 16 else 32);
      && parameter != (if i.opcode == RICE4 then 15 else 31)
      && Residual.Carries(Residual.Rice(parameter), value)
      && R.Stream(p.input) == Residual.PutValue(value, Residual.Rice(parameter)) + tail
    ensures Decodes(p, Perform(kernel, i, r, e, p), map[i.dst := value % 0x1_0000_0000], tail)
  {
    hide R.Stream, N.RiceValue, N.RawValue, Residual.PutValue, Residual.Carries, Residual.GetRice;
    var parameter := Reg(r, i.src0) % (if i.opcode == RICE4 then 16 else 32);
    Residual.RiceRoundTrip(value, parameter, tail);
    N.RiceAgrees(p.input, parameter);
  }

  /** With all bits of the parameter set they read a signed number in as many bits as `src1`
      says, from one to 32. */
  lemma ReadsEscape(kernel: KernelEngine, i: Instruction, r: Registers, e: Entry, p: Prims, value: int, tail: seq<bit>)
    requires i.cls == ENTROPY && i.opcode in {RICE4, RICE5}
    requires if i.opcode == RICE4 then Reg(r, i.src0) % 16 == 15 else Reg(r, i.src0) % 32 == 31
    ensures var width, result := Reg(r, i.src1) % 64, Perform(kernel, i, r, e, p);
      if !(1 <= width <= 32) then result.Faulted? && result.fault == N.BAD_CODE
      else
        FitsSigned(value, width) && R.Stream(p.input) == Residual.PutSigned(value, width) + tail ==>
          Decodes(p, result, map[i.dst := value % 0x1_0000_0000], tail)
  {
    hide R.Stream, N.RiceValue, N.RawValue, Residual.PutSigned, FitsSigned, B.GetSigned;
    var width := Reg(r, i.src1) % 64;
    if 1 <= width <= 32 {
      N.RawAgrees(p.input, width);
      if FitsSigned(value, width) {
        Residual.SignedRoundTrip(value, width, tail);
      }
    }
  }

  /** SIGN_RESTORE adds the number in the next bits to the magnitude in `src0` and lets the
      bit behind them decide the sign; a magnitude of zero reads nothing. */
  lemma RestoresSign(
    kernel: KernelEngine, i: Instruction, r: Registers, e: Entry, p: Prims, extra: nat, sign: bit, tail: seq<bit>)
    requires i.cls == ENTROPY && i.opcode == SIGN_RESTORE && extra < Pow2(Reg(r, i.src1) % 32)
    requires Reg(r, i.src0) != 0 ==> R.Stream(p.input) == NatBits(extra, Reg(r, i.src1) % 32) + ([sign] + tail)
    ensures var magnitude: nat, result := Reg(r, i.src0), Perform(kernel, i, r, e, p);
      if magnitude == 0 then Decodes(p, result, map[i.dst := 0], R.Stream(p.input))
      else
        var value := if sign == 1 then -(magnitude + extra) else magnitude + extra;
        Decodes(p, result, map[i.dst := value % 0x1_0000_0000], tail)
  {
    hide R.Stream, NatBits, Pow2;
    if Reg(r, i.src0) != 0 {
      I.SignRestored(Reg(r, i.src0), Reg(r, i.src1) % 32, p.input, extra, sign, tail);
    }
  }

  // ---------------------------------------------------------------- Local memory

  /** The number `n` bytes spell, the lowest first. */
  function LowFirst(m: Memory, address: nat, n: nat): nat
    requires address + n <= |m.data|
    decreases n
  {
    if n == 0 then 0 else m.data[address] + 0x100 * LowFirst(m, address + 1, n - 1)
  }

  /** The low 16 bits of the immediate, read as a signed number. */
  predicate IsOffset(i: Instruction, offset: int) {
    -0x8000 <= offset < 0x8000 && (i.immediate - offset) % 0x1_0000 == 0
  }

  /** The bytes lie in the scratch window and in the memory. */
  predicate InScratch(e: Entry, address: int, n: nat) {
    e.scratchBase <= address && address + n <= e.scratchBase + e.scratchBytes && address + n <= LOCAL_DATA_BYTES
  }

  predicate InTable(m: Memory, e: Entry, address: int, n: nat) {
    m.imageValid && e.tableOffset <= address && address + n <= e.tableOffset + e.tableBytes
    && address + n <= LOCAL_DATA_BYTES
  }

  lemma OneWordValid(m: Memory, address: int)
    requires address >= 0 && address % 4 == 0 && address + 4 <= LOCAL_DATA_BYTES
    ensures WordsValid(m, address, 4) <==> address / 4 in m.valid
  {
    var w := address / 4;
    assert (address + 3) / 4 == w;
    assert Touched(address, 4) == {w};
  }

  lemma OffsetIsLow(i: Instruction, r: Registers, e: Entry, offset: int)
    requires IsOffset(i, offset)
    ensures WordAddress(i, r, e) == e.scratchBase + Reg(r, i.src0) + offset
  {
  }

  lemma FourBytes(m: Memory, address: nat)
    requires address + 4 <= |m.data|
    ensures FromLittleEndian(m.data[address..address + 4]) as nat == LowFirst(m, address, 4)
  {
    assert LowFirst(m, address, 4) == m.data[address] + 0x100 * LowFirst(m, address + 1, 3);
    assert LowFirst(m, address + 1, 3) == m.data[address + 1] + 0x100 * LowFirst(m, address + 2, 2);
    assert LowFirst(m, address + 2, 2) == m.data[address + 2] + 0x100 * LowFirst(m, address + 3, 1);
  }

  /** LD32 writes the word at the scratch base plus `src0` plus the offset, if the address is
      aligned, in the window and its word has been stored since the job began. */
  lemma Loads(kernel: KernelEngine, i: Instruction, r: Registers, e: Entry, p: Prims, offset: int)
    requires i.cls == LOCAL && i.opcode == LD32 && IsOffset(i, offset)
    ensures var address, result := e.scratchBase + Reg(r, i.src0) + offset, Perform(kernel, i, r, e, p);
      if address % 4 == 0 && InScratch(e, address, 4) && address / 4 in p.memory.valid then
        result == Executed(p, map[i.dst := LowFirst(p.memory, address, 4)])
      else result == Faulted(p, RANGE_FAULT)
  {
    hide FromLittleEndian, WordsValid, LowFirst;
    var address := e.scratchBase + Reg(r, i.src0) + offset;
    OffsetIsLow(i, r, e, offset);
    if address % 4 == 0 && InScratch(e, address, 4) {
      OneWordValid(p.memory, address);
      FourBytes(p.memory, address);
    }
  }

  /** ST32 stores `src1` there, lowest byte first, and marks the word as stored; above the
      tables only. */
  lemma Stores(kernel: KernelEngine, i: Instruction, r: Registers, e: Entry, p: Prims, offset: int)
    requires i.cls == LOCAL && i.opcode == ST32 && IsOffset(i, offset)
    ensures var address, result := e.scratchBase + Reg(r, i.src0) + offset, Perform(kernel, i, r, e, p);
      if address % 4 == 0 && InScratch(e, address, 4) && address >= p.memory.tableBytes then
        && result.Executed? && result.writes == map[]
        && result.prims == p.(memory := result.prims.memory) && |result.prims.memory.data| == |p.memory.data|
        && LowFirst(result.prims.memory, address, 4) == Reg(r, i.src1)
        && (forall a :: 0 <= a < |p.memory.data| && !(address <= a < address + 4) ==>
              result.prims.memory.data[a] == p.memory.data[a])
        && result.prims.memory == p.memory.(data := result.prims.memory.data, valid := p.memory.valid + {address / 4})
      else result == Faulted(p, RANGE_FAULT)
  {
    hide FromLittleEndian, WordBytesLE, LowFirst;
    var address := e.scratchBase + Reg(r, i.src0) + offset;
    OffsetIsLow(i, r, e, offset);
    if address % 4 == 0 && InScratch(e, address, 4) && address >= p.memory.tableBytes {
      var bytes, after := WordBytesLE(Reg(r, i.src1)), Perform(kernel, i, r, e, p).prims.memory;
      WordOfBytes(Reg(r, i.src1));
      assert after.data[address..address + 4] == bytes;
      FourBytes(after, address);
      assert (address + 3) / 4 == address / 4;
      assert Touched(address, 4) == {address / 4};
    }
  }

  /** TABLE8, TABLE16 and TABLE32 write the element of one, two or four bytes with the index
      in `src1`, of the table at `src0`, if it is aligned and inside the table payload. */
  lemma LooksUp(kernel: KernelEngine, i: Instruction, r: Registers, e: Entry, p: Prims)
    requires i.cls == LOCAL && i.opcode in {TABLE8, TABLE16, TABLE32}
    ensures var size := if i.opcode == TABLE8 then 1 else if i.opcode == TABLE16 then 2 else 4;
      var address, result := e.tableOffset + Reg(r, i.src0) + size * Reg(r, i.src1), Perform(kernel, i, r, e, p);
      if address % size == 0 && InTable(p.memory, e, address, size) then
        result == Executed(p, map[i.dst := LowFirst(p.memory, address, size)])
      else result == Faulted(p, RANGE_FAULT)
  {
    hide R.LittleEndian, LowFirst;
    var size := if i.opcode == TABLE8 then 1 else if i.opcode == TABLE16 then 2 else 4;
    var address := e.tableOffset + Reg(r, i.src0) + size * Reg(r, i.src1);
    if InTable(p.memory, e, address, size) {
      LittleEndianIsLowFirst(p.memory, address, size);
    }
  }

  lemma {:induction false} LittleEndianIsLowFirst(m: Memory, address: nat, n: nat)
    requires address + n <= |m.data|
    ensures R.LittleEndian(m.data[address..address + n]) == LowFirst(m, address, n)
    decreases n
  {
    if n == 0 {
    } else {
      LittleEndianIsLowFirst(m, address + 1, n - 1);
      assert m.data[address..address + n][1..] == m.data[address + 1..address + 1 + (n - 1)];
    }
  }

  /** The table at `start` holds these rows: the symbol in the low 16 bits of a word, the length
      of its code in the five bits above; lengths do not decrease nor exceed the maximum. */
  ghost predicate HoldsTable(m: Memory, e: Entry, start: nat, maximum: nat, rows: seq<N.Row>) {
    && (forall k :: 0 <= k < |rows| ==> InTable(m, e, start + 4 * k, 4) && HoldsRow(m, start + 4 * k, rows[k]))
    && (forall k :: 0 <= k < |rows| ==> rows[k].length <= maximum)
    && (forall j, k :: 0 <= j < k < |rows| ==> rows[j].length <= rows[k].length)
  }

  ghost predicate HoldsRow(m: Memory, address: nat, row: N.Row)
    requires address + 4 <= LOCAL_DATA_BYTES
  {
    && row.symbol < 0x1_0000 && row.length < 32 && row.reserved == 0
    && LowFirst(m, address, 4) == row.symbol + 0x1_0000 * row.length
  }

  lemma RowRead(m: Memory, address: nat, row: N.Row)
    requires address + 4 <= LOCAL_DATA_BYTES && HoldsRow(m, address, row)
    ensures N.RowOf(FromLittleEndian(m.data[address..address + 4])) == row
  {
    hide LowFirst;
    FourBytes(m, address);
    var w := FromLittleEndian(m.data[address..address + 4]);
    DivModUnique(w as nat, 0x1_0000, row.length, row.symbol);
    assert w as nat / 0x20_0000 == 0;
  }

  lemma {:induction false} RowsRead(m: Memory, e: Entry, start: nat, rows: seq<N.Row>)
    requires forall k :: 0 <= k < |rows| ==> InTable(m, e, start + 4 * k, 4) && HoldsRow(m, start + 4 * k, rows[k])
    ensures ReadRows(m, start, |rows|, e) == Ok(rows)
    decreases |rows|
  {
    hide HoldsRow, LowFirst, N.RowOf;
    if rows == [] {
    } else {
      forall k | 0 <= k < |rows| - 1
        ensures InTable(m, e, start + 4 + 4 * k, 4) && HoldsRow(m, start + 4 + 4 * k, rows[1..][k])
      {
        assert start + 4 + 4 * k == start + 4 * (k + 1);
      }
      assert InTable(m, e, start + 4 * 0, 4) && HoldsRow(m, start + 4 * 0, rows[0]);
      RowRead(m, start, rows[0]);
      RowsRead(m, e, start + 4, rows[1..]);
      assert [rows[0]] + rows[1..] == rows;
    }
  }

  /** The Huffman instructions on a code of the table at `src0`, with as many rows as `src1`
      says: the registers spell its symbol and exactly the code is consumed. */
  lemma DecodesSymbol(
    kernel: KernelEngine, i: Instruction, r: Registers, e: Entry, p: Prims, rows: seq<N.Row>, k: nat, tail: seq<bit>)
    requires i.cls == ENTROPY && i.opcode in {HUFF_SYMBOL, HUFF_PAIR, HUFF_QUAD}
    requires |rows| == Reg(r, i.src1) as nat && k < |rows| <= 4096
    requires HoldsTable(p.memory, e, e.tableOffset + Reg(r, i.src0), i.aux, rows)
    requires N.CodeOf(rows, k) < Pow2(rows[k].length) && R.Stream(p.input) == N.CodeBits(rows, k) + tail
    ensures var result := Perform(kernel, i, r, e, p);
      && result.Executed? && I.Spells(i.opcode, i.dst, rows[k].symbol, result.writes)
      && result.prims == p.(input := result.prims.input) && R.Stream(result.prims.input) == tail
  {
    hide EntropyStep, I.Spells, R.Stream, N.CodeOf, N.CodeBits, Pow2, LowFirst, ReadRows;
    RowsRead(p.memory, e, e.tableOffset + Reg(r, i.src0), rows);
    I.HuffmanDecodes(i, r, e, p, rows, k, tail);
  }

  /** FIFO_POP takes the oldest word from the input FIFO: the bytes it carries, lowest first,
      and behind them their number and the end flag. */
  lemma Pops(kernel: KernelEngine, i: Instruction, r: Registers, e: Entry, p: Prims, data: seq<byte>, last: bool)
    requires i.cls == LOCAL && i.opcode == FIFO_POP && 1 <= |data| <= 4
    requires p.input.words != [] && p.input.words[0] == R.PackWord(data, last)
    ensures Perform(kernel, i, r, e, p) == Executed(
      p.(input := p.input.(words := p.input.words[1..])),
      map[i.dst := R.LittleEndian(data), i.dst + 1 := |data| + (if last then 0x100 else 0)])
  {
    hide R.LittleEndian;
    R.PackWordFields(data, last);
    R.LittleEndianBound(data);
    Pow2Monotone(8 * |data|, 32);
    Pow2Literals();
    var word, flag := R.PackWord(data, last), if last then 1 else 0;
    DivModUnique(word, R.COUNT_UNIT, |data| + 0x100 * flag, R.LittleEndian(data));
  }

  /** FIFO_PUSH appends to the output FIFO a word with the low bytes of `src0`, as many as
      `src1` says, and the end flag; the FIFO must have space and `src1` no other bits. */
  lemma Pushes(kernel: KernelEngine, i: Instruction, r: Registers, e: Entry, p: Prims, count: nat, last: bool)
    requires i.cls == LOCAL && i.opcode == FIFO_PUSH && 1 <= count <= 4 && |p.outputFifo| < R.FIFO_DEPTH
    requires Reg(r, i.src1) == count + (if last then 0x100 else 0)
    ensures var result := Perform(kernel, i, r, e, p);
      && result.Executed? && result.writes == map[] && |result.prims.outputFifo| == |p.outputFifo| + 1
      && result.prims == p.(outputFifo := p.outputFifo + [result.prims.outputFifo[|p.outputFifo|]])
      && var word := result.prims.outputFifo[|p.outputFifo|];
      R.WordBytes(word) == WordBytesLE(Reg(r, i.src0))[..count] && R.WordLast(word) == last
  {
    hide BitsWithin, R.WordBytes, R.WordLast, R.WordOk, R.WordCount;
    var data, metadata := Reg(r, i.src0), Reg(r, i.src1);
    SidebandLegal(count, last);
    I.StoredFields(data, metadata);
    StoredBytes(data, metadata, count);
  }

  lemma SidebandLegal(count: nat, last: bool)
    requires 1 <= count <= 4
    ensures SidebandOk(count + (if last then 0x100 else 0))
  {
    var metadata := count + (if last then 0x100 else 0);
    assert metadata % 8 == count;
    assert metadata / 2 / 2 / 2 == if last then 0x20 else 0;
    assert BitsWithin(metadata / 8, 0x20);
    assert metadata / 2 / 2 / 2 == metadata / 8;
    assert BitsWithin(metadata / 2 / 2, 0x41);
    assert BitsWithin(metadata / 2, 0x83);
  }

  /** The bytes of a stored word. */
  lemma StoredBytes(data: word, metadata: word, count: nat)
    requires SidebandOk(metadata) && metadata % 8 == count
    ensures R.WordBytes(I.Stored(data, metadata)) == WordBytesLE(data)[..count]
  {
    hide BitsWithin;
    I.StoredFields(data, metadata);
    var word := I.Stored(data, metadata);
    forall k: nat | k < count
      ensures R.WordBytes(word)[k] == WordBytesLE(data)[k]
    {
      LowByte(data, metadata % 8 + 0x100 * (metadata / 0x100 % 2), k);
    }
  }

  /** The unit of byte `k` of a word. */
  function ByteUnit(k: nat): nat {
    if k == 0 then 1 else if k == 1 then 0x100 else if k == 2 then 0x1_0000 else 0x100_0000
  }

  lemma ByteUnits(k: nat)
    requires k < 4
    ensures Pow2(8 * k) == ByteUnit(k)
  {
    Pow2Literals();
    Pow2Add(16, 8);
    assert Pow2(0) == 1;
  }

  lemma LowByte(data: word, high: nat, k: nat)
    requires k < 4
    ensures R.WordByte(data as nat + R.COUNT_UNIT * high, k) == WordBytesLE(data)[k]
  {
    hide Pow2;
    ByteUnits(k);
    ByteAbove(data, high, ByteUnit(k), R.COUNT_UNIT / ByteUnit(k) / 0x100);
  }

  /** What lies above the low 32 bits does not reach their bytes. */
  lemma ByteAbove(data: word, high: nat, unit: nat, more: nat)
    requires unit > 0 && R.COUNT_UNIT == unit * (0x100 * more)
    ensures (data as nat + R.COUNT_UNIT * high) / unit % 0x100 == data / unit % 0x100
  {
    var above := 0x100 * more * high;
    DivModFacts(data, unit);
    Associate(unit, 0x100 * more, high);
    Distribute(data / unit, above, unit);
    assert (data / unit + above) * unit + data % unit == data as nat + R.COUNT_UNIT * high;
    DivModUnique(data as nat + R.COUNT_UNIT * high, unit, data / unit + above, data % unit);
    Associate(0x100, more, high);
    WholeBytes(data / unit, more * high);
  }

  lemma WholeBytes(n: int, k: int)
    ensures (n + 0x100 * k) % 0x100 == n % 0x100
  {
    DivModFacts(n, 0x100);
    DivModUnique(n + 0x100 * k, 0x100, n / 0x100 + k, n % 0x100);
  }

  // ---------------------------------------------------------------- Against the byte reader

  /** The transport delivers up to four bytes, or the engine executes an instruction. */
  datatype Happening = Arrives(data: seq<byte>, last: bool) | Executes(i: Instruction)

  /** The instructions that read bits one field at a time. */
  predicate ReadsBits(h: Happening) {
    h.Executes? ==> h.i.cls == BITSTREAM && h.i.opcode in {PEEK, GET, SKIP, ALIGN}
  }

  /** What a byte reader is asked for instead. */
  function Asked(h: Happening): B.Op {
    match h
    case Arrives(data, last) => B.OpPush(data, last)
    case Executes(i) =>
      var width := i.immediate % 64;
      if i.opcode == GET then B.OpGet(width)
      else if i.opcode == PEEK then B.OpPeek(width)
      else if i.opcode == SKIP then B.OpSkip(width)
      else B.OpAlign
  }

  function AllAsked(hs: seq<Happening>): (ops: seq<B.Op>)
    ensures |ops| == |hs|
  {
    seq(|hs|, k requires 0 <= k < |hs| => Asked(hs[k]))
  }

  /** The value an instruction writes to its destination, zero if it writes none, and nothing
      if it fails. */
  function EngineStep(kernel: KernelEngine, r: Registers, e: Entry, p: Prims, h: Happening): (Option<int>, Prims) {
    match h
    case Arrives(data, last) =>
      var word := R.PackWord(data, last);
      if R.CanPush(p.input.words, word) then (Some(0), p.(input := R.Push(p.input, word))) else (None, p)
    case Executes(i) =>
      match Perform(kernel, i, r, e, p)
      case Executed(p', writes) => (Some(if i.dst in writes then writes[i.dst] else 0), p')
      case Faulted(p', _) => (None, p')
  }

  /** The answers of the engine, up to the first failure. */
  function EngineAnswers(kernel: KernelEngine, r: Registers, e: Entry, p: Prims, hs: seq<Happening>)
    : (seq<Option<int>>, Prims)
    decreases |hs|
  {
    if hs == [] then ([], p)
    else
      var (answer, next) := EngineStep(kernel, r, e, p, hs[0]);
      if answer.None? then ([None], next)
      else
        ([answer] + EngineAnswers(kernel, r, e, next, hs[1..]).0, EngineAnswers(kernel, r, e, next, hs[1..]).1)
  }

  /** An instruction is the reservoir operation it stands for. */
  lemma StepIsOperation(kernel: KernelEngine, r: Registers, e: Entry, p: Prims, h: Happening)
    requires ReadsBits(h)
    ensures var (answer, after), (asked, input) :=
        EngineStep(kernel, r, e, p, h), B.ReservoirStep(p.input, Asked(h));
      answer == asked && after == p.(input := input)
  {
    hide R.Get, R.Peek, R.Push, R.CanPush, R.PackWord;
  }

  lemma {:induction false} AnswersAreOperations(
    kernel: KernelEngine, r: Registers, e: Entry, p: Prims, hs: seq<Happening>)
    requires forall h :: h in hs ==> ReadsBits(h)
    ensures var (answers, after), (asked, input) :=
        EngineAnswers(kernel, r, e, p, hs), B.ReservoirAnswers(p.input, AllAsked(hs));
      answers == asked && after.input == input
    decreases |hs|
  {
    hide EngineStep, B.ReservoirStep;
    if hs == [] {
    } else {
      StepIsOperation(kernel, r, e, p, hs[0]);
      var (answer, next) := EngineStep(kernel, r, e, p, hs[0]);
      assert AllAsked(hs)[0] == Asked(hs[0]) && AllAsked(hs)[1..] == AllAsked(hs[1..]);
      if answer.Some? {
        AnswersAreOperations(kernel, r, e, next, hs[1..]);
      }
    }
  }

  /** The engine against the byte reader: from an empty reservoir on, through every sequence
      of arrivals and of GET, PEEK, SKIP and ALIGN instructions, the engine writes what a
      reader of the bytes arrived so far reads and stands at its position modulo eight, if
      and only if every ALIGN reached skips zeros only. */
  lemma EngineRefinesReader(kernel: KernelEngine, r: Registers, e: Entry, p: Prims, hs: seq<Happening>)
    requires p.input == R.EMPTY && forall h :: h in hs ==> ReadsBits(h)
    requires B.SpaceForPushes(R.EMPTY, AllAsked(hs))
    ensures var start := B.Cursor([], 0);
      var (answers, after), (read, c) := EngineAnswers(kernel, r, e, p, hs), B.ReaderAnswers(start, AllAsked(hs));
      answers == read && after.input.position == c.bit % 8 <==> B.ZeroPadding(start, AllAsked(hs))
  {
    hide EngineAnswers, B.ReservoirAnswers, B.ReaderAnswers, B.SpaceForPushes, B.ZeroPadding, AllAsked;
    AnswersAreOperations(kernel, r, e, p, hs);
    B.ReservoirRefinesReader(AllAsked(hs));
  }
}

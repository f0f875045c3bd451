/** The primitive engine: bitstream, entropy and local-memory instructions in full,
    kernels as scripts over the local memory. It meets every condition the machine's
    theorems put on an engine. */
module Primitives {
  import opened Common
  import opened Isa
  import opened Memory
  import opened Transport
  import opened Machine
  import R = Reservoir
  import B = BitReader
  import N = Entropy
  import Residual
  import Crc
  import S = BitStream
  import Soundness
  import Latency
  import Conservation
  import Isolation
  import Containment

  type Answer = Result<map<nat, int>, Fault>

  function One(dst: nat, value: int): map<nat, int> { map[dst := value] }

  const NO_BITS: Fault := Fault(5, 4, 9)
  const NO_SYNC: Fault := Fault(4, 4, 9)
  const NO_WORD: Fault := Fault(22, 4, 9)

  // ---------------------------------------------------------------- Bitstream

  /** Consumes the bits up to the next byte boundary. */
  function Aligned(input: R.Reservoir): (R.Reservoir, Option<nat>) {
    var skip := B.ToBoundary(input.position);
    if skip == 0 then (input, Some(0)) else R.Get(input, skip)
  }

  /** The search of FRAME_SYNC: the number of bytes skipped before the pattern. */
  function Sync(input: R.Reservoir, pattern: nat, mask: nat, width: nat, skipped: nat, limit: nat)
    : (R.Reservoir, Result<nat, Fault>)
    decreases limit - skipped
  {
    if skipped >= limit then (input, Err(NO_SYNC))
    else
      var (seen, value) := R.Peek(input, width);
      if value.None? then (seen, Err(NO_BITS))
      else if BitAnd(value.value, mask) == BitAnd(pattern, mask) then (seen, Ok(skipped))
      else if skipped + 1 == limit then (seen, Err(NO_SYNC))
      else
        var (next, byte) := R.Get(seen, 8);
        if byte.None? then (next, Err(NO_BITS)) else Sync(next, pattern, mask, width, skipped + 1, limit)
  }

  function Delivered(dst: nat, result: (R.Reservoir, Option<nat>)): (R.Reservoir, Answer) {
    (result.0, if result.1.None? then Err(NO_BITS) else Ok(One(dst, result.1.value)))
  }

  function Skipped(result: (R.Reservoir, Option<nat>)): (R.Reservoir, Answer) {
    (result.0, if result.1.None? then Err(NO_BITS) else Ok(map[]))
  }

  function FrameSync(i: Instruction, r: Registers, input: R.Reservoir): (R.Reservoir, Answer) {
    var (start, ready) := Aligned(input);
    if ready.None? then (start, Err(NO_BITS))
    else
      var (found, skipped) := Sync(start, Reg(r, i.src0) % 0x1_0000, Reg(r, i.src1) % 0x1_0000, i.aux % 0x20, 0,
        i.immediate);
      (found, if skipped.Err? then Err(skipped.error) else Ok(One(i.dst, skipped.value)))
  }

  function CrcStep(width: nat, poly: nat, src0: nat, src1: nat): nat
    requires width >= 1 && poly % 2 == 1
  {
    S.Value(Crc.Register(Crc.GeneratorOf(width, poly), S.NatBits(src0, width), S.NatBits(src1, 8)))
  }

  function Bitstream(i: Instruction, r: Registers, input: R.Reservoir): (R.Reservoir, Answer) {
    var width := i.immediate % 0x40;
    if i.opcode == REFILL then
      var filled := R.Refill(input, width);
      (filled, Ok(One(i.dst, Min(|filled.bits|, 64))))
    else if i.opcode == PEEK then Delivered(i.dst, R.Peek(input, width))
    else if i.opcode == GET then Delivered(i.dst, R.Get(input, width))
    else if i.opcode == SKIP then Skipped(R.Get(input, width))
    else if i.opcode == ALIGN then Skipped(Aligned(input))
    else if i.opcode == FRAME_SYNC then FrameSync(i, r, input)
    else if i.opcode == CRC8 then (input, Ok(One(i.dst, CrcStep(8, 0x07, Reg(r, i.src0), Reg(r, i.src1)))))
    else (input, Ok(One(i.dst, CrcStep(16, 0x8005, Reg(r, i.src0), Reg(r, i.src1)))))
  }

  // ---------------------------------------------------------------- Entropy

  function ReadRows(m: Memory, start: int, count: nat, e: Entry): Result<seq<N.Row>, Fault>
    decreases count
  {
    if count == 0 then Ok([])
    else
      match Read(m, start, 4, e, true)
      case Err(fault) => Err(fault)
      case Ok(bytes) =>
        match ReadRows(m, start + 4, count - 1, e)
        case Err(fault) => Err(fault)
        case Ok(rows) => Ok([N.RowOf(FromLittleEndian(bytes))] + rows)
  }

  /** The registers a symbol is spread over: one, a pair, or four single bits. */
  function Spread(opcode: nat, dst: nat, symbol: nat): map<nat, int> {
    if opcode == HUFF_SYMBOL then One(dst, symbol)
    else if opcode == HUFF_PAIR then map[dst := symbol / 16 % 16, dst + 1 := symbol % 16]
    else map[dst := symbol / 8 % 2, dst + 1 := symbol / 4 % 2, dst + 2 := symbol / 2 % 2, dst + 3 := symbol % 2]
  }

  function Huffman(i: Instruction, r: Registers, e: Entry, p: Prims): (R.Reservoir, Answer) {
    var count := Reg(r, i.src1);
    if !(1 <= count <= 4096) then (p.input, Err(N.BAD_CODE))
    else
      match ReadRows(p.memory, e.tableOffset + Reg(r, i.src0), count, e)
      case Err(fault) => (p.input, Err(fault))
      case Ok(rows) =>
        var (input, symbol) := N.DecodeSymbol(p.input, rows, i.aux);
        (input, if symbol.Err? then Err(symbol.error) else Ok(Spread(i.opcode, i.dst, symbol.value)))
  }

  /** UNARY: the length of a run of bits equal to the polarity. */
  function Unary(input: R.Reservoir, polarity: nat, run: nat, limit: nat): (R.Reservoir, Result<nat, Fault>)
    decreases limit + 1 - run
  {
    if run > limit then (input, Err(N.BAD_CODE))
    else
      var (next, b) := R.Get(input, 1);
      if b.None? then (next, Err(N.EXHAUSTED))
      else if b.value != polarity then (next, Ok(run))
      else Unary(next, polarity, run + 1, limit)
  }

  function Rice(i: Instruction, r: Registers, input: R.Reservoir): (R.Reservoir, Result<nat, Fault>) {
    var escape := if i.opcode == RICE4 then 15 else 31;
    var parameter := Reg(r, i.src0) % (escape + 1);
    if parameter == escape then
      var width := Reg(r, i.src1) % 0x40;
      if 1 <= width <= 32 then N.RawValue(input, width) else (input, Err(N.BAD_CODE))
    else N.RiceValue(input, parameter)
  }

  function SignRestore(magnitude: word, linbits: nat, input: R.Reservoir): (R.Reservoir, Result<nat, Fault>) {
    if magnitude == 0 then (input, Ok(0))
    else
      var (more, extra) := R.Get(input, linbits);
      if extra.None? then (more, Err(N.EXHAUSTED))
      else
        var (last, sign) := R.Get(more, 1);
        if sign.None? then (last, Err(N.EXHAUSTED))
        else (last, Ok(ToWord(if sign.value != 0 then -(magnitude as int + extra.value)
          else magnitude as int + extra.value)))
  }

  function EntropyStep(i: Instruction, r: Registers, e: Entry, p: Prims): (R.Reservoir, Answer) {
    if i.opcode <= HUFF_QUAD then Huffman(i, r, e, p)
    else
      var (input, value) :=
        if i.opcode == UNARY then Unary(p.input, i.aux % 2, 0, i.immediate)
        else if i.opcode == RICE4 || i.opcode == RICE5 then Rice(i, r, p.input)
        else SignRestore(Reg(r, i.src0), Reg(r, i.src1) % 0x20, p.input);
      (input, if value.Err? then Err(value.error) else Ok(One(i.dst, value.value)))
  }

  // ---------------------------------------------------------------- Local memory and FIFOs

  function WordAddress(i: Instruction, r: Registers, e: Entry): int {
    var low := i.immediate % 0x1_0000;
    e.scratchBase + Reg(r, i.src0) + (if low >= 0x8000 then low - 0x1_0000 else low)
  }

  function TableSize(opcode: nat): nat { if opcode == TABLE8 then 1 else if opcode == TABLE16 then 2 else 4 }

  function LoadTable(i: Instruction, r: Registers, e: Entry, p: Prims): Answer {
    var size := TableSize(i.opcode);
    var address := e.tableOffset + Reg(r, i.src0) + Reg(r, i.src1) * size;
    if address % size != 0 then Err(RANGE_FAULT)
    else
      match Read(p.memory, address, size, e, true)
      case Err(fault) => Err(fault)
      case Ok(bytes) => Ok(One(i.dst, R.LittleEndian(bytes)))
  }

  /** The sideband of FIFO_PUSH: byte count and last flag, nothing else. */
  predicate SidebandOk(metadata: nat) { BitsWithin(metadata, 0x107) && 1 <= metadata % 8 <= 4 }

  function FifoPush(r: Registers, i: Instruction, p: Prims): EngineResult {
    var metadata := Reg(r, i.src1);
    var word := Reg(r, i.src0) as int + R.COUNT_UNIT * (metadata % 8) + R.LAST_UNIT * (metadata / 0x100 % 2);
    if SidebandOk(metadata) && R.CanPush(p.outputFifo, word) then
      Executed(p.(outputFifo := p.outputFifo + [word % 0x200_0000_0000]), map[])
    else Faulted(p, PUSH_FAULT)
  }

  function LocalStep(i: Instruction, r: Registers, e: Entry, p: Prims): EngineResult {
    if i.opcode == LD32 then
      if WordAddress(i, r, e) % 4 != 0 then Faulted(p, RANGE_FAULT)
      else
        match Read(p.memory, WordAddress(i, r, e), 4, e, false)
        case Err(fault) => Faulted(p, fault)
        case Ok(bytes) => Executed(p, One(i.dst, FromLittleEndian(bytes)))
    else if i.opcode == ST32 then
      if WordAddress(i, r, e) % 4 != 0 then Faulted(p, RANGE_FAULT)
      else
        match Write(p.memory, WordAddress(i, r, e), WordBytesLE(Reg(r, i.src1)), e)
        case Err(fault) => Faulted(p, fault)
        case Ok(memory) => Executed(p.(memory := memory), map[])
    else if i.opcode <= TABLE32 then
      match LoadTable(i, r, e, p)
      case Err(fault) => Faulted(p, fault)
      case Ok(writes) => Executed(p, writes)
    else if i.opcode == FIFO_POP then
      if p.input.words == [] then Faulted(p, NO_WORD)
      else
        var word := p.input.words[0];
        var sideband := R.WordCount(word) + if R.WordLast(word) then 0x100 else 0;
        Executed(p.(input := p.input.(words := p.input.words[1..])),
          map[i.dst := word % R.COUNT_UNIT, i.dst + 1 := sideband])
    else FifoPush(r, i, p)
  }

  // ---------------------------------------------------------------- The engine

  type KernelEngine = (Instruction, Registers, Entry, Prims) -> EngineResult

  function Finished(p: Prims, result: (R.Reservoir, Answer)): EngineResult {
    match result.1
    case Err(fault) => Faulted(p.(input := result.0), fault)
    case Ok(writes) => Executed(p.(input := result.0), writes)
  }

  /** `PrimitiveBam.execute` */
  function Perform(kernel: KernelEngine, i: Instruction, r: Registers, e: Entry, p: Prims): EngineResult {
    if i.cls == BITSTREAM then Finished(p, Bitstream(i, r, p.input))
    else if i.cls == ENTROPY then Finished(p, EntropyStep(i, r, e, p))
    else if i.cls == LOCAL then LocalStep(i, r, e, p)
    else kernel(i, r, e, p)
  }

  // ---------------------------------------------------------------- The input FIFO only drains

  predicate Drains(before: R.Reservoir, after: R.Reservoir) {
    after.pushed == before.pushed && |after.words| <= |before.words|
  }

  predicate Known(fault: Fault) { fault.reason in {5, 9} }

  /** A reservoir operation that only takes from the FIFO and faults for known reasons. */
  ghost predicate Proper<T(!new)>(before: R.Reservoir, result: (R.Reservoir, Result<T, Fault>)) {
    Drains(before, result.0) && (result.1.Err? ==> Known(result.1.error))
  }

  lemma ReadsDrain(r: R.Reservoir, width: nat)
    ensures Drains(r, R.Refill(r, width)) && Drains(r, R.Peek(r, width).0) && Drains(r, R.Get(r, width).0)
  {
    R.RefillKeepsStream(r, width);
  }

  lemma {:induction false} SyncProper(input: R.Reservoir, pattern: nat, mask: nat, width: nat, skipped: nat, limit: nat)
    ensures Proper(input, Sync(input, pattern, mask, width, skipped, limit))
    decreases limit - skipped
  {
    hide R.Peek, R.Get, BitAnd;
    if skipped < limit {
      ReadsDrain(input, width);
      var seen := R.Peek(input, width).0;
      ReadsDrain(seen, 8);
      if skipped + 1 < limit {
        SyncProper(R.Get(seen, 8).0, pattern, mask, width, skipped + 1, limit);
      }
    }
  }

  lemma {:induction false} UnaryProper(input: R.Reservoir, polarity: nat, run: nat, limit: nat)
    ensures Proper(input, Unary(input, polarity, run, limit))
    decreases limit + 1 - run
  {
    hide R.Get;
    if run <= limit {
      ReadsDrain(input, 1);
      UnaryProper(R.Get(input, 1).0, polarity, run + 1, limit);
    }
  }

  lemma {:induction false} ZeroRunProper(r: R.Reservoir, quotient: nat)
    ensures Proper(r, N.ZeroRun(r, quotient))
    decreases Residual.RUN_LIMIT + 1 - quotient
  {
    hide R.Get;
    ReadsDrain(r, 1);
    if quotient + 1 <= Residual.RUN_LIMIT {
      ZeroRunProper(R.Get(r, 1).0, quotient + 1);
    }
  }

  lemma {:induction false} ScanProper(r: R.Reservoir, rows: seq<N.Row>, maximum: nat, code: nat, previous: nat)
    ensures Proper(r, N.Scan(r, rows, maximum, code, previous))
    decreases |rows|
  {
    hide R.Peek;
    if rows != [] && previous <= rows[0].length {
      ReadsDrain(r, rows[0].length);
      ScanProper(R.Peek(r, rows[0].length).0, rows[1..], maximum, code * Pow2(rows[0].length - previous) + 1,
        rows[0].length);
    }
  }

  lemma {:induction false} RowsKnown(m: Memory, start: int, count: nat, e: Entry)
    ensures ReadRows(m, start, count, e).Err? ==> Known(ReadRows(m, start, count, e).error)
    decreases count
  {
    if count == 0 {
    } else {
      RowsKnown(m, start + 4, count - 1, e);
    }
  }

  lemma BitstreamProper(i: Instruction, r: Registers, input: R.Reservoir)
    ensures Proper(input, Bitstream(i, r, input))
  {
    hide R.Peek, R.Get, R.Refill, Sync, CrcStep;
    ReadsDrain(input, i.immediate % 0x40);
    ReadsDrain(input, B.ToBoundary(input.position));
    SyncProper(Aligned(input).0, Reg(r, i.src0) % 0x1_0000, Reg(r, i.src1) % 0x1_0000, i.aux % 0x20, 0, i.immediate);
  }

  lemma HuffmanProper(i: Instruction, r: Registers, e: Entry, p: Prims)
    ensures Proper(p.input, Huffman(i, r, e, p))
  {
    hide R.Get, N.Scan, ReadRows, Spread;
    var start, count := e.tableOffset + Reg(r, i.src0), Reg(r, i.src1);
    RowsKnown(p.memory, start, count, e);
    var rows := ReadRows(p.memory, start, count, e);
    if rows.Ok? {
      ScanProper(p.input, rows.value, i.aux, 0, 0);
      var (found, row) := N.Scan(p.input, rows.value, i.aux, 0, 0);
      if row.Ok? {
        ReadsDrain(found, row.value.length);
      }
    }
  }

  lemma RiceProper(i: Instruction, r: Registers, input: R.Reservoir)
    ensures Proper(input, Rice(i, r, input))
  {
    hide R.Get, N.ZeroRun;
    var parameter := Reg(r, i.src0) % (if i.opcode == RICE4 then 16 else 32);
    ReadsDrain(input, Reg(r, i.src1) % 0x40);
    ZeroRunProper(input, 0);
    ReadsDrain(N.ZeroRun(input, 0).0, parameter);
  }

  lemma EntropyProper(i: Instruction, r: Registers, e: Entry, p: Prims)
    ensures Proper(p.input, EntropyStep(i, r, e, p))
  {
    hide R.Get, Huffman, Rice, Unary;
    HuffmanProper(i, r, e, p);
    UnaryProper(p.input, i.aux % 2, 0, i.immediate);
    RiceProper(i, r, p.input);
    var linbits := Reg(r, i.src1) % 0x20;
    ReadsDrain(p.input, linbits);
    ReadsDrain(R.Get(p.input, linbits).0, 1);
  }

  // ---------------------------------------------------------------- Blind to leftover bytes

  lemma {:induction false} RowsAlike(m: Memory, n: Memory, start: int, count: nat, e: Entry)
    requires Agree(m, n) && EntryFits(m, e)
    ensures ReadRows(m, start, count, e) == ReadRows(n, start, count, e)
    decreases count
  {
    hide Read, Agree;
    if count == 0 {
    } else {
      ReadsAgree(m, n, start, 4, e, true);
      RowsAlike(m, n, start + 4, count - 1, e);
    }
  }

  lemma EntropyAlike(i: Instruction, r: Registers, e: Entry, p: Prims, q: Prims)
    requires Isolation.AlikePrims(p, q, e)
    ensures EntropyStep(i, r, e, p) == EntropyStep(i, r, e, q)
  {
    hide Agree, ReadRows, N.DecodeSymbol, Spread, Rice, Unary, SignRestore;
    RowsAlike(p.memory, q.memory, e.tableOffset + Reg(r, i.src0), Reg(r, i.src1), e);
  }

  lemma LocalAlike(i: Instruction, r: Registers, e: Entry, p: Prims, q: Prims)
    requires Isolation.AlikePrims(p, q, e)
    ensures Isolation.AlikeResults(LocalStep(i, r, e, p), LocalStep(i, r, e, q), e)
  {
    hide Read, Write, Agree, SidebandOk, FromLittleEndian, R.LittleEndian;
    var address, size := WordAddress(i, r, e), TableSize(i.opcode);
    if i.opcode == LD32 {
      ReadsAgree(p.memory, q.memory, address, 4, e, false);
    } else if i.opcode == ST32 {
      var bytes := WordBytesLE(Reg(r, i.src1));
      if address % 4 == 0 {
        Isolation.AlignedCovers(p.memory, address, 4);
        CoveredWriteAgrees(p.memory, q.memory, address, bytes, e);
        WriteKeepsFit(p.memory, address, bytes, e);
      }
    } else if i.opcode <= TABLE32 {
      ReadsAgree(p.memory, q.memory, e.tableOffset + Reg(r, i.src0) + Reg(r, i.src1) * size, size, e, true);
    }
  }

  lemma WriteKeepsFit(m: Memory, address: int, payload: seq<byte>, e: Entry)
    requires EntryFits(m, e)
    ensures Write(m, address, payload, e).Ok? ==> EntryFits(Write(m, address, payload, e).value, e)
  {
  }

  // ---------------------------------------------------------------- Kernels as scripts

  /** What the machine asks of the kernels: they leave the input alone, fault for reason
      5 or 9 and write `dst` only. */
  ghost predicate KernelRules(s: Isolation.Script) {
    forall i: Instruction, r, e, p, answers ::
      var result := s.finish(i, r, e, p, answers);
      && result.prims.input == p.input
      && (result.Faulted? ==> Known(result.fault))
      && (result.Executed? ==> result.writes.Keys <= {i.dst})
  }

  function KernelsOf(s: Isolation.Script): KernelEngine {
    (i: Instruction, r: Registers, e: Entry, p: Prims) => Isolation.RunScript(s, i, r, e, p)
  }

  /** The machine runs this engine with these kernels. */
  ghost predicate Runs(c: Config, s: Isolation.Script) {
    forall i, r, e, p :: c.engine(i, r, e, p) == Perform(KernelsOf(s), i, r, e, p)
  }

  lemma ReasonsAndInput(s: Isolation.Script, i: Instruction, r: Registers, e: Entry, p: Prims)
    requires KernelRules(s)
    ensures var result := Perform(KernelsOf(s), i, r, e, p);
      && (result.Faulted? ==> Known(result.fault)) && Drains(p.input, result.prims.input)
      && (i.cls == KERNEL && result.Executed? ==> result.writes.Keys <= {i.dst})
  {
    hide Bitstream, EntropyStep, LocalStep, Isolation.RunScript, KernelRules;
    BitstreamProper(i, r, p.input);
    EntropyProper(i, r, e, p);
    LocalProper(i, r, e, p);
    KernelProper(s, i, r, e, p);
  }

  lemma LocalProper(i: Instruction, r: Registers, e: Entry, p: Prims)
    ensures var result := LocalStep(i, r, e, p);
      (result.Faulted? ==> Known(result.fault)) && Drains(p.input, result.prims.input)
  {
    hide R.LittleEndian, FromLittleEndian, SidebandOk, Splice;
  }

  lemma KernelProper(s: Isolation.Script, i: Instruction, r: Registers, e: Entry, p: Prims)
    requires KernelRules(s)
    ensures var result := Isolation.RunScript(s, i, r, e, p);
      && (result.Faulted? ==> Known(result.fault)) && Drains(p.input, result.prims.input)
      && (result.Executed? ==> result.writes.Keys <= {i.dst})
  {
    hide Session;
    var view := Isolation.Masked(p);
    var answers := Session(s.client(i, r, e, view), p.memory, e, [], s.steps(i, r, e, view)).1;
    var result := s.finish(i, r, e, view, answers);
    assert result.prims.input == view.input;
  }

  /** A call whose stores cover the words they touch: always so outside the kernels. */
  ghost predicate CallCovers(s: Isolation.Script, e: Entry, i: Instruction, r: Registers, p: Prims) {
    i.cls == BITSTREAM || i.cls == ENTROPY || i.cls == LOCAL || Isolation.StoresCover(s, e, i, r, p)
  }

  ghost function EngineCovers(s: Isolation.Script, e: Entry): Isolation.CallTest {
    (i: Instruction, r: Registers, p: Prims) => CallCovers(s, e, i, r, p)
  }

  lemma PerformAlike(s: Isolation.Script, i: Instruction, r: Registers, e: Entry, p: Prims, q: Prims)
    requires CallCovers(s, e, i, r, p) && Isolation.AlikePrims(p, q, e)
    ensures Isolation.AlikeResults(Perform(KernelsOf(s), i, r, e, p), Perform(KernelsOf(s), i, r, e, q), e)
  {
    hide Bitstream, EntropyStep, LocalStep, Isolation.RunScript, Isolation.StoresCover, Agree;
    EntropyAlike(i, r, e, p, q);
    LocalAlike(i, r, e, p, q);
    if Isolation.StoresCover(s, e, i, r, p) {
      Isolation.ScriptBlind(s, i, r, e, p, q);
    }
  }

  /** Cycle counts come from the instruction, the registers, the input and, for kernels,
      what the kernel read. */
  type Clock = (Instruction, Registers, Prims, seq<Response>) -> int

  ghost function Answers(s: Isolation.Script, e: Entry, i: Instruction, r: Registers, p: Prims): seq<Response> {
    if i.cls == BITSTREAM || i.cls == ENTROPY || i.cls == LOCAL then []
    else
      var view := Isolation.Masked(p);
      Session(s.client(i, r, e, view), p.memory, e, [], s.steps(i, r, e, view)).1
  }

  ghost predicate Clocked(c: Config, w: Timing, s: Isolation.Script, clock: Clock) {
    forall i, r, p ::
      w.cycles(i, r, p) == clock(i, r, Isolation.Masked(p), Answers(s, c.entry, i, r, Isolation.Called(i, p)))
  }

  lemma AnswersAlike(s: Isolation.Script, e: Entry, i: Instruction, r: Registers, p: Prims, q: Prims)
    requires CallCovers(s, e, i, r, p) && Isolation.AlikePrims(p, q, e)
    ensures Answers(s, e, i, r, p) == Answers(s, e, i, r, q)
  {
    hide Session, WholeWords, Agree;
    if Isolation.StoresCover(s, e, i, r, p) {
      var view := Isolation.Masked(p);
      assert view == Isolation.Masked(q);
      SessionsAgree(s.client(i, r, e, view), p.memory, q.memory, e, [], s.steps(i, r, e, view));
    }
  }

  lemma ClockIsBlind(c: Config, w: Timing, s: Isolation.Script, clock: Clock)
    requires Clocked(c, w, s, clock)
    ensures Isolation.CyclesBlindWhere(c, w, EngineCovers(s, c.entry))
  {
    hide Answers, Agree, CallCovers;
    forall i, r, p, q
      | EngineCovers(s, c.entry)(i, r, Isolation.Called(i, p)) && Isolation.AlikePrims(p, q, c.entry)
      ensures w.cycles(i, r, p) == w.cycles(i, r, q)
    {
      AnswersAlike(s, c.entry, i, r, Isolation.Called(i, p), Isolation.Called(i, q));
      assert Isolation.Masked(p) == Isolation.Masked(q);
    }
  }

  lemma PerformContained(s: Isolation.Script, i: Instruction, r: Registers, e: Entry, p: Prims)
    ensures Kept(p.memory, Perform(KernelsOf(s), i, r, e, p).prims.memory, e)
  {
    hide Bitstream, EntropyStep, Kept, Read, Write, Session, R.LittleEndian, FromLittleEndian, SidebandOk;
    Containment.KeptSelf(p.memory, e);
    WriteStaysInWindow(p.memory, WordAddress(i, r, e), WordBytesLE(Reg(r, i.src1)), e);
    var view := Isolation.Masked(p);
    SessionStaysInWindow(s.client(i, r, e, view), p.memory, e, [], s.steps(i, r, e, view));
  }

  /** Whatever the kernels are, the engine stays inside the window, and its calls whose
      stores cover the words they touch cannot tell leftover bytes. */
  lemma EngineContainedAndBlind(c: Config, s: Isolation.Script)
    requires Runs(c, s)
    ensures Containment.EngineContained(c) && Isolation.BlindWhere(c, EngineCovers(s, c.entry))
  {
    hide Perform, CallCovers, Isolation.AlikePrims, Isolation.AlikeResults, Kept;
    forall i, r, p, q | EngineCovers(s, c.entry)(i, r, p) && Isolation.AlikePrims(p, q, c.entry)
      ensures Isolation.AlikeResults(c.engine(i, r, c.entry, p), c.engine(i, r, c.entry, q), c.entry)
    {
      PerformAlike(s, i, r, c.entry, p, q);
    }
    forall i, r, p: Prims
      ensures Kept(p.memory, c.engine(i, r, c.entry, p).prims.memory, c.entry)
    {
      PerformContained(s, i, r, c.entry, p);
    }
  }

  /** With kernels that obey the rules, it meets every other condition of the machine's
      theorems. */
  lemma EngineMeetsAll(c: Config, s: Isolation.Script)
    requires Runs(c, s) && KernelRules(s)
    ensures Soundness.EngineReasons(c) && Latency.KernelsWriteDst(c) && Conservation.EngineConsumes(c)
  {
    hide Perform, KernelRules;
    forall i, r, e, p
      ensures var result := c.engine(i, r, e, p);
        && (result.Faulted? ==> Known(result.fault)) && Drains(p.input, result.prims.input)
        && (i.cls == KERNEL && result.Executed? ==> result.writes.Keys <= {i.dst})
    {
      ReasonsAndInput(s, i, r, e, p);
    }
  }

  // ---------------------------------------------------------------- Frame sync

  /** The pattern stands at the front of the stream. */
  predicate Matches(stream: seq<bit>, pattern: nat, mask: nat, width: nat) {
    |stream| >= width && BitAnd(S.Value(stream[..width]), mask) == BitAnd(pattern, mask)
  }

  /** FRAME_SYNC finds the first match: the bytes it reports were skipped, the pattern
      stands at the front of what is left, and no earlier byte position matches. It
      gives up on the pattern only when none of the positions allowed matches. */
  lemma {:induction false} SyncFindsFirst(input: R.Reservoir, pattern: nat, mask: nat, width: nat, skipped: nat,
    limit: nat)
    ensures var (found, result) := Sync(input, pattern, mask, width, skipped, limit);
      var stream := R.Stream(input);
      && (result.Ok? ==>
        var distance := 8 * (result.value - skipped);
        && skipped <= result.value < limit && distance <= |stream|
        && R.Stream(found) == stream[distance..] && Matches(stream[distance..], pattern, mask, width)
        && NoMatch(stream, pattern, mask, width, result.value - skipped))
      && (result == Err(NO_SYNC) ==> NoMatch(stream, pattern, mask, width, limit - skipped))
    decreases limit - skipped
  {
    hide R.Peek, R.Get, R.Stream, BitAnd, S.Value, NoMatch;
    var stream := R.Stream(input);
    assert stream[0..] == stream;
    NoMatchNone(stream, pattern, mask, width);
    if skipped < limit {
      R.PeekReadsStream(input, width);
      var seen := R.Peek(input, width).0;
      if |stream| >= width && !Matches(stream, pattern, mask, width) {
        R.GetReadsStream(seen, 8);
        if skipped + 1 == limit {
          NoMatchOne(stream, pattern, mask, width);
        } else if |stream| >= 8 {
          SyncFindsFirst(R.Get(seen, 8).0, pattern, mask, width, skipped + 1, limit);
          NoMatchMore(stream, pattern, mask, width);
          var result := Sync(input, pattern, mask, width, skipped, limit).1;
          if result.Ok? {
            var distance := 8 * (result.value - skipped);
            assert stream[8..][distance - 8..] == stream[distance..];
          }
        }
      }
    }
  }

  /** None of the first `n` byte positions of the stream matches. */
  ghost predicate NoMatch(stream: seq<bit>, pattern: nat, mask: nat, width: nat, n: int) {
    forall k :: 0 <= k < n && 8 * k <= |stream| ==> !Matches(stream[8 * k..], pattern, mask, width)
  }

  lemma NoMatchNone(stream: seq<bit>, pattern: nat, mask: nat, width: nat)
    ensures forall n :: n <= 0 ==> NoMatch(stream, pattern, mask, width, n)
  {
  }

  lemma NoMatchOne(stream: seq<bit>, pattern: nat, mask: nat, width: nat)
    requires !Matches(stream, pattern, mask, width)
    ensures NoMatch(stream, pattern, mask, width, 1)
  {
    assert stream[8 * 0..] == stream;
  }

  lemma NoMatchMore(stream: seq<bit>, pattern: nat, mask: nat, width: nat)
    requires !Matches(stream, pattern, mask, width) && |stream| >= 8
    ensures forall n :: NoMatch(stream[8..], pattern, mask, width, n) ==> NoMatch(stream, pattern, mask, width, n + 1)
  {
    hide Matches;
    forall n, k | NoMatch(stream[8..], pattern, mask, width, n) && 0 <= k < n + 1 && 8 * k <= |stream|
      ensures !Matches(stream[8 * k..], pattern, mask, width)
    {
      if k == 0 {
        assert stream[8 * 0..] == stream;
      } else {
        assert stream[8..][8 * (k - 1)..] == stream[8 * k..];
      }
    }
  }
}

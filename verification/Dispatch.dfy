/** How the sequencer issues an engine instruction: when it waits for input, what it writes
    back and when, how long a kernel runs, and what is refused before anything is issued. */
module Dispatch {
  import opened Common
  import opened Isa
  import opened Memory
  import opened Transport
  import opened Machine
  import opened Steps
  import R = Reservoir

  // ---------------------------------------------------------------- Idle cycles

  /** `n` cycles without a retirement lead to `after`, unless the watchdog runs out first. */
  ghost predicate Idles(w: Timing, m: Machine, n: nat, after: Machine, o: Outcome) {
    if n > 0 && (w.timeout <= 0 || m.watchdog + n >= w.timeout) then o.Trap? && o.reason == 7
    else o == Next(after.(watchdog := m.watchdog + n))
  }

  /** Nothing happens in idle cycles with nothing in flight. */
  lemma {:induction false} CalmCycles(c: Config, w: Timing, m: Machine, n: nat)
    requires Calm(m) && m.watchdog >= 0
    ensures Idles(w, m, n, m, Cycles(c, w, m, n))
    decreases n
  {
    hide Ticks;
    if n == 0 {
    } else {
      CalmTicks(c, m);
      if Cycle(c, w, m).Next? {
        CalmCycles(c, w, Cycle(c, w, m).m, n - 1);
      }
    }
  }

  // ---------------------------------------------------------------- Bitstream, entropy, local

  /** The registers after the writes of an instruction. */
  ghost predicate Written(r: Registers, writes: map<nat, int>, r': Registers) {
    forall k: nat :: k < 16 ==> r'[k] as int == if k in writes then writes[k] % 0x1_0000_0000 else r[k] as int
  }

  /** How many bits an instruction wants to see before it is issued. */
  predicate Wants(i: Instruction, r: Registers, n: nat) {
    || (i.cls == BITSTREAM && i.opcode in {REFILL, PEEK, GET, SKIP} && n == i.immediate % 64)
    || (i.cls == BITSTREAM && i.opcode == FRAME_SYNC && n == i.aux % 32)
    || (i.cls == BITSTREAM && i.opcode in {ALIGN, CRC8, CRC16} && n == 0)
    || (i.cls == ENTROPY && i.opcode in {HUFF_SYMBOL, HUFF_PAIR, HUFF_QUAD} && n == i.aux)
    || (i.cls == ENTROPY && i.opcode == UNARY && n == i.immediate + 1)
    || (i.cls == ENTROPY && i.opcode in {RICE4, RICE5} && n == 1)
    || (i.cls == ENTROPY && i.opcode == SIGN_RESTORE && Reg(r, i.src0) == 0 && n == 0)
    || (i.cls == ENTROPY && i.opcode == SIGN_RESTORE && Reg(r, i.src0) != 0 && n == Reg(r, i.src1) % 32 + 1)
    || (i.cls == LOCAL && n == 0)
  }

  /** The end of the input has arrived. */
  predicate Ended(input: R.Reservoir) { input.eof || exists k :: 0 <= k < |input.words| && R.WordLast(input.words[k]) }

  /** The instruction cannot be issued yet: it wants bits that may still arrive, a word to pop,
      or space to push. */
  ghost predicate MustWait(i: Instruction, r: Registers, p: Prims, n: nat) {
    || (|R.Stream(p.input)| < n && !Ended(p.input))
    || (i.cls == LOCAL && i.opcode == FIFO_POP && |p.input.words| == 0)
    || (i.cls == LOCAL && i.opcode == FIFO_PUSH && |p.outputFifo| == 64)
  }

  lemma {:induction false} ShortRefill(input: R.Reservoir, n: nat)
    ensures var filled := R.Refill(input, n);
      if |R.Stream(input)| < n then |filled.bits| < n && (filled.eof <==> Ended(input))
      else |filled.bits| >= n
    decreases |input.words|
  {
    hide R.WordBytes, R.WordLast;
    if |input.bits| >= n || input.words == [] {
    } else {
      var next := R.Unpack(input);
      assert R.Stream(next) == R.Stream(input);
      assert Ended(next) <==> Ended(input) by {
        if k :| 0 <= k < |input.words| && R.WordLast(input.words[k]) {
          if k > 0 {
            assert next.words[k - 1] == input.words[k];
          }
        }
      }
      ShortRefill(next, n);
    }
  }

  lemma WantsIs(i: Instruction, r: Registers, n: nat)
    requires i.cls in {BITSTREAM, ENTROPY, LOCAL} && Wants(i, r, n)
    ensures RequiredBits(i, r) == n
  {
  }

  lemma Wanted(c: Config, i: Instruction, r: Registers) returns (n: nat)
    requires ValidInstruction(i, c.target, c.abi) && i.cls in {BITSTREAM, ENTROPY, LOCAL}
    ensures Wants(i, r, n)
  {
    n := RequiredBits(i, r);
    AllocatedOpcode(c, i);
  }

  lemma AllocatedOpcode(c: Config, i: Instruction)
    requires ValidInstruction(i, c.target, c.abi)
    ensures i.cls == BITSTREAM ==> i.opcode <= CRC16
    ensures i.cls == ENTROPY ==> i.opcode <= SIGN_RESTORE
  {
  }

  /** The answer of the engine reaches the machine: a fault traps; otherwise the instruction
      takes its cycles, its writes land as words, and it moves on. */
  ghost predicate Lands(c: Config, w: Timing, m: Machine, cycles: int, result: EngineResult, o: Outcome) {
    match result
    case Faulted(p', fault) => o.Trap? && o.reason == fault.reason
    case Executed(p', writes) =>
      if cycles > 1 && (w.timeout <= 0 || m.watchdog + cycles - 1 >= w.timeout) then o.Trap? && o.reason == 7
      else
        exists r' ::
          Written(m.core.registers, writes, r')
          && Arrives(c, o, m.(prims := Some(p'), core := m.core.(registers := r')), m.core.pc + 1)
  }

  /** An unpredicated bitstream, entropy or local instruction: it waits a cycle if it must;
      otherwise the engine is asked once, with as much input unpacked as it wants. */
  ghost predicate Issues(c: Config, w: Timing, m: Machine, o: Outcome)
    requires c.Valid() && c.InRange(m.core.pc) && m.prims.Some?
  {
    var i, r, p := c.program[m.core.pc], m.core.registers, m.prims.value;
    exists n :: Wants(i, r, n) &&
      var filled := p.(input := R.Refill(p.input, n));
      if MustWait(i, r, p, n) then Idles(w, m, 1, m.(prims := Some(filled)), o)
      else Lands(c, w, m, w.cycles(i, r, filled), c.engine(i, r, c.entry, filled), o)
  }

  lemma EngineInstruction(c: Config, w: Timing, m: Machine)
    requires c.Valid() && Calm(m) && Legal(c, m) && m.prims.Some? && m.watchdog >= 0
    requires var i := c.program[m.core.pc]; i.cls in {BITSTREAM, ENTROPY, LOCAL} && i.predicate_ == 0
    ensures Issues(c, w, m, Step(c, w, m))
  {
    hide Ticks, ValidInstruction, R.Refill, R.Stream, Step, PrimitiveStep, RequiredBits, Wants, MustWait, Lands, Idles;
    CalmStep(c, w, m);
    var i, r, p := c.program[m.core.pc], m.core.registers, m.prims.value;
    var n := Wanted(c, i, r);
    WantsIs(i, r, n);
    if MustWait(i, r, p, n) {
      Waiting(c, w, m, i, n);
    } else {
      Answered(c, w, m, i, n);
    }
  }

  lemma NoRefill(input: R.Reservoir)
    ensures R.Refill(input, 0) == input
  {
  }

  lemma Waiting(c: Config, w: Timing, m: Machine, i: Instruction, n: nat)
    requires m.prims.Some? && RequiredBits(i, m.core.registers) == n && Wants(i, m.core.registers, n)
    requires MustWait(i, m.core.registers, m.prims.value, n) && i.cls in {BITSTREAM, ENTROPY, LOCAL}
    ensures var p := m.prims.value;
      Idles(w, m, 1, m.(prims := Some(p.(input := R.Refill(p.input, n)))), PrimitiveStep(c, w, m, i))
  {
    hide R.Refill, R.Stream, Ended, RequiredBits;
    ShortRefill(m.prims.value.input, n);
    NoRefill(m.prims.value.input);
  }

  lemma Answered(c: Config, w: Timing, m: Machine, i: Instruction, n: nat)
    requires Calm(m) && m.watchdog >= 0
    requires m.prims.Some? && RequiredBits(i, m.core.registers) == n && i.cls in {BITSTREAM, ENTROPY, LOCAL}
    requires !MustWait(i, m.core.registers, m.prims.value, n)
    ensures var p := m.prims.value;
      var filled := p.(input := R.Refill(p.input, n));
      Lands(c, w, m, w.cycles(i, m.core.registers, filled), c.engine(i, m.core.registers, c.entry, filled),
            PrimitiveStep(c, w, m, i))
  {
    hide R.Refill, R.Stream, Ended, RequiredBits, Cycles, Lands;
    var r, p := m.core.registers, m.prims.value;
    ShortRefill(p.input, n);
    var filled := p.(input := R.Refill(p.input, n));
    assert Buffered(i, r, p) == filled && !Starved(i, r, filled) && !FifoBlocked(i, p);
    hide MustWait, Starved, Buffered, FifoBlocked;
    var result, cycles := c.engine(i, r, c.entry, filled), w.cycles(i, r, filled);
    match result
    case Faulted(p', fault) => Landed(c, w, m, cycles, result, Trap(fault.reason, m.(prims := Some(p'))));
    case Executed(p', writes) => Idled(c, w, m, cycles, p', writes);
  }

  lemma Landed(c: Config, w: Timing, m: Machine, cycles: int, result: EngineResult, o: Outcome)
    requires result.Faulted? && o.Trap? && o.reason == result.fault.reason
    ensures Lands(c, w, m, cycles, result, o)
  {
  }

  lemma Idled(c: Config, w: Timing, m: Machine, cycles: int, p: Prims, writes: map<nat, int>)
    requires Calm(m) && m.watchdog >= 0 && m.prims.Some?
    ensures var written := m.(prims := Some(p), core := m.core.(registers := ApplyWrites(m.core.registers, writes)));
      var o := Cycles(c, w, written, Max(cycles - 1, 0));
      Lands(c, w, m, cycles, Executed(p, writes), if o.Next? then Advance(c, o.m, m.core.pc + 1) else o)
  {
    hide Cycles, ApplyWrites;
    var r' := ApplyWrites(m.core.registers, writes);
    var written := m.(prims := Some(p), core := m.core.(registers := r'));
    CalmCycles(c, w, written, Max(cycles - 1, 0));
    WritesAre(m.core.registers, writes);
  }

  lemma WritesAre(r: Registers, writes: map<nat, int>)
    ensures Written(r, writes, ApplyWrites(r, writes))
  {
  }

  // ---------------------------------------------------------------- Kernels

  /** A kernel is under way with these writes and so many cycles left. */
  predicate Running(m: Machine, dst: nat, writes: map<nat, int>, cycles: int) {
    && m.kernel == Kernel(Some(writes), None, None, Some(dst), cycles)
    && Calm(m.(kernel := NO_KERNEL)) && m.prims.Some?
  }

  /** The kernel has finished: its writes are in the registers, its flag is set. */
  ghost predicate Finished(before: Machine, writes: map<nat, int>, after: Machine) {
    && Written(before.core.registers, writes, after.core.registers)
    && before.prims.Some?
    && after == before.(core := before.core.(registers := after.core.registers),
                        prims := Some(before.prims.value.(kernelDone := true)), kernel := NO_KERNEL)
  }

  /** An unpredicated kernel instruction with no kernel under way: a fault about an address
      traps at once and any other is reported by the next step; otherwise it moves on, with
      its results there if it takes one cycle and under way if it takes more. */
  ghost predicate KernelIssued(c: Config, m: Machine, dst: nat, cycles: int, result: EngineResult, o: Outcome) {
    match result
    case Faulted(p', fault) =>
      if fault.reason == 5 then o.Trap? && o.reason == 5
      else
        Arrives(c, o, m.(prims := Some(p'.(kernelDone := false)), kernel := NO_KERNEL.(fault := Some(fault))),
          m.core.pc + 1)
    case Executed(p', writes) =>
      var cleared := m.(prims := Some(p'.(kernelDone := false)));
      if cycles <= 1 then exists after :: Finished(cleared, writes, after) && Arrives(c, o, after, m.core.pc + 1)
      else
        Arrives(c, o, cleared.(kernel := Kernel(Some(writes), None, None, Some(dst), cycles - 1)), m.core.pc + 1)
  }

  lemma KernelInstruction(c: Config, w: Timing, m: Machine)
    requires c.Valid() && Calm(m) && Legal(c, m) && m.prims.Some? && m.kernel == NO_KERNEL
    requires var i := c.program[m.core.pc]; i.cls == KERNEL && i.predicate_ == 0
    ensures var i, p := c.program[m.core.pc], m.prims.value.(kernelDone := false);
      KernelIssued(c, m, i.dst, w.cycles(i, m.core.registers, m.prims.value),
                   c.engine(i, m.core.registers, c.entry, p), Step(c, w, m))
  {
    hide Ticks, ValidInstruction, Step, Written;
    CalmStep(c, w, m);
    var i, p := c.program[m.core.pc], m.prims.value;
    assert RequiredBits(i, m.core.registers) == 0;
    NoRefill(p.input);
    assert Buffered(i, m.core.registers, p) == p;
    var result := c.engine(i, m.core.registers, c.entry, p.(kernelDone := false));
    if result.Executed? {
      WritesLand(m.(prims := Some(result.prims.(kernelDone := false)),
                    kernel := Kernel(Some(result.writes), None, None, Some(i.dst), 0)), result.writes);
    }
  }

  lemma WritesLand(m: Machine, writes: map<nat, int>)
    requires m.kernel.result == Some(writes) && m.kernel.pendingFault.None? && m.kernel.fault.None? && m.prims.Some?
    ensures Finished(m.(kernel := NO_KERNEL), writes, CompleteKernel(m))
    ensures Finished(m, writes, CompleteKernel(m))
  {
  }

  /** A kernel with `left` cycles to go: nothing but the count changes in fewer cycles, and in
      exactly as many it has finished. */
  lemma {:induction false} KernelRuns(
    c: Config, w: Timing, m: Machine, dst: nat, writes: map<nat, int>, left: nat, n: nat)
    requires Running(m, dst, writes, left) && n <= left && left >= 1 && m.watchdog >= 0
    ensures n < left ==> Idles(w, m, n, m.(kernel := m.kernel.(cycles := left - n)), Cycles(c, w, m, n))
    ensures n == left ==> exists after :: Finished(m, writes, after) && Idles(w, m, n, after, Cycles(c, w, m, n))
    decreases n
  {
    hide Ticks, Finished;
    if n == 0 {
    } else {
      var ticked := Ticks(c, m);
      KernelTick(c, m, dst, writes, left);
      if left == 1 {
        LastCycle(c, w, m, writes, ticked);
      } else {
        var o := Cycle(c, w, m);
        if o.Next? {
          KernelRuns(c, w, o.m, dst, writes, left - 1, n - 1);
          KernelStep(c, w, m, o.m, writes, left, n);
        } else {
          WritesLand(m, writes);
        }
      }
    }
  }

  lemma LastCycle(c: Config, w: Timing, m: Machine, writes: map<nat, int>, after: Machine)
    requires Ticks(c, m) == after && Finished(m, writes, after) && m.watchdog >= 0
    ensures Finished(m, writes, after) && Idles(w, m, 1, after, Cycles(c, w, m, 1))
  {
    hide Ticks;
    var o := Cycle(c, w, m);
    assert o.Next? ==> Cycles(c, w, o.m, 0) == Next(o.m);
  }

  lemma KernelTick(c: Config, m: Machine, dst: nat, writes: map<nat, int>, left: nat)
    requires Running(m, dst, writes, left) && left >= 1
    ensures left > 1 ==> Ticks(c, m) == m.(kernel := m.kernel.(cycles := left - 1))
    ensures left == 1 ==> Finished(m, writes, Ticks(c, m))
  {
    hide Written;
    var ticked := TickKernel(m);
    WritesLand(m.(kernel := m.kernel.(cycles := 0)), writes);
    TransportRests(c, ticked);
  }

  lemma TransportRests(c: Config, m: Machine)
    requires Calm(m.(kernel := NO_KERNEL))
    ensures TickTransport(c, m) == m
  {
    if m.transport.Some? && m.prims.Some? {
      TickOne(c.settings, m.transport.value, m.prims.value, c.entry);
    }
  }

  /** The cycles after the first one, seen from before it. */
  lemma KernelStep(c: Config, w: Timing, m: Machine, m1: Machine, writes: map<nat, int>, left: nat, n: nat)
    requires 1 <= n <= left && Cycle(c, w, m) == Next(m1)
    requires m1 == m.(kernel := m.kernel.(cycles := left - 1), watchdog := m.watchdog + 1) && m.watchdog >= 0
    requires n < left ==>
      Idles(w, m1, n - 1, m1.(kernel := m1.kernel.(cycles := left - 1 - (n - 1))), Cycles(c, w, m1, n - 1))
    requires n == left ==> exists after ::
      Finished(m1, writes, after) && Idles(w, m1, n - 1, after, Cycles(c, w, m1, n - 1))
    ensures n < left ==> Idles(w, m, n, m.(kernel := m.kernel.(cycles := left - n)), Cycles(c, w, m, n))
    ensures n == left ==> exists after :: Finished(m, writes, after) && Idles(w, m, n, after, Cycles(c, w, m, n))
  {
    hide Written;
    assert Cycles(c, w, m, n) == Cycles(c, w, m1, n - 1);
    if n == left {
      var after :| Finished(m1, writes, after) && Idles(w, m1, n - 1, after, Cycles(c, w, m1, n - 1));
      assert Finished(m, writes, after.(watchdog := m.watchdog));
      assert Idles(w, m, n, after.(watchdog := m.watchdog), Cycles(c, w, m, n));
    }
  }

  // ---------------------------------------------------------------- What holds an instruction up

  /** The registers a scalar instruction reads. */
  function Operands(i: Instruction): set<nat> {
    if i.opcode == MOVI then {} else if i.opcode in {MOV, SAT} then {i.src0} else {i.src0, i.src1}
  }

  /** The register it writes. */
  function Results(i: Instruction): set<nat> { if i.opcode == CMP then {} else {i.dst} }

  /** Which registers must not be in flight: those a scalar instruction reads or writes, the
      count of a loop, for END and for every engine or transport instruction all, for other
      control instructions none. */
  ghost predicate Clear(i: Instruction, pending: set<nat>) {
    if i.cls == SCALAR then Operands(i) * pending == {} && Results(i) * pending == {}
    else if i.cls == CONTROL then
      (i.opcode == END ==> pending == {}) && (i.opcode == LOOP_SETUP ==> i.src0 !in pending)
    else pending == {}
  }

  lemma ClearIff(m: Machine, i: Instruction)
    ensures Clear(i, PendingRegisters(m)) <==> !PendingDependency(m, i)
  {
    hide PendingRegisters;
    var pending := PendingRegisters(m);
    if r :| r in pending && UsesPending(i, r) {
      assert i.cls == SCALAR ==> r in Operands(i) * pending || r in Results(i) * pending;
      assert r in pending;
    } else if !Clear(i, pending) {
      var conflict := ConflictUses(i, pending);
    }
  }

  lemma ConflictUses(i: Instruction, pending: set<nat>) returns (r: nat)
    requires !Clear(i, pending)
    ensures r in pending && UsesPending(i, r)
  {
    if i.cls == SCALAR {
      if Operands(i) * pending != {} {
        r :| r in Operands(i) * pending;
      } else {
        r :| r in Results(i) * pending;
      }
    } else if i.cls == CONTROL && i.opcode == LOOP_SETUP {
      r := i.src0;
    } else {
      r :| r in pending;
    }
  }

  /** What a step does once the engines have ticked. A fault of a kernel is reported first,
      then one of the transport; an illegal instruction, then a spent budget, trap whatever the
      predicate says; an instruction whose predicate holds waits for the registers it needs. */
  lemma StepOrder(c: Config, w: Timing, m: Machine)
    requires c.Valid() && c.InRange(m.core.pc)
    ensures var i, o, n := c.program[m.core.pc], Step(c, w, m), Ticks(c, m);
      if n.kernel.fault.Some? then o == Trap(n.kernel.fault.value.reason, n.(kernel := n.kernel.(fault := None)))
      else if n.transportFault.Some? then o == Trap(n.transportFault.value.reason, n.(transportFault := None))
      else if !ValidInstruction(i, c.target, c.abi) then o == Trap(1, n)
      else if n.core.retired >= c.entry.maxRetired then o == Trap(8, n)
      else
        PredicateHolds(c, w, n, i.predicate_) ==>
          if Clear(i, PendingRegisters(n)) then o == Execute(c, w, n, i)
          else
            o == if w.timeout <= 0 || n.watchdog + 1 >= w.timeout then Trap(7, n.(watchdog := n.watchdog + 1))
              else Next(n.(watchdog := n.watchdog + 1))
  {
    hide Ticks, Execute, ValidInstruction, PredicateHolds, Clear, PendingRegisters, PendingDependency;
    ClearIff(Ticks(c, m), c.program[m.core.pc]);
  }

  /** Without the engine or the transport their instructions trap with reason 6. */
  lemma NoEngine(c: Config, w: Timing, m: Machine)
    requires c.Valid() && Calm(m) && Legal(c, m) && m.prims.None?
    requires var i := c.program[m.core.pc]; i.cls >= BITSTREAM && i.predicate_ == 0
    ensures Step(c, w, m) == Trap(6, m)
  {
    hide Ticks, ValidInstruction;
    CalmStep(c, w, m);
  }

  // ---------------------------------------------------------------- The start of a job

  /** A job starts at its entry point with zero registers, no flag set, no call, loop, command
      or result left over, empty FIFOs and no word of scratch memory stored; what earlier jobs
      left in memory, tables included, is still there. */
  lemma JobBegins(c: Config, memory: Option<Memory>, transport: bool)
    ensures var m := Boot(c, memory, transport);
      && m.core.pc == c.entry.entryPc && (forall k: nat :: k < 16 ==> m.core.registers[k] == 0)
      && !m.core.eq && !m.core.signedLt && !m.core.unsignedLt
      && m.core.retired == 0 && m.core.stack == [] && m.core.loops == map[] && m.watchdog == 0
      && Calm(m) && m.kernel == NO_KERNEL && m.prims.Some? == memory.Some? && m.transport.Some? == transport
    ensures var m := Boot(c, memory, transport);
      m.prims.Some? ==>
        var p := m.prims.value;
        && R.Stream(p.input) == [] && p.input.words == [] && p.input.position == 0 && !p.input.eof && !p.kernelDone
        && p.outputFifo == [] && p.memory.data == memory.value.data && p.memory.valid == {}
        && p.memory.tableBytes == memory.value.tableBytes && p.memory.imageValid == memory.value.imageValid
    ensures var m := Boot(c, memory, transport);
      m.transport.Some? ==>
        var t := m.transport.value;
        && t.inputCursor == 0 && t.output == [] && t.outputCommands == [] && t.frames == 0 && t.logicalInput == 0
        && t.logicalOutput == 0 && t.events == 0
  {
  }
}

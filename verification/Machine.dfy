/** The microcode sequencer: predication, calls, counted loops, the no-retirement
    watchdog, the retirement budget, and delayed writeback behind a scoreboard.
    The primitive engine is a parameter, so every theorem about the sequencer holds
    for every engine; so are the delays, which live in `Timing`. */
module Machine {
  import opened Common
  import opened Isa
  import opened Memory
  import opened Reservoir
  import opened Transport

  datatype EngineResult = Executed(prims: Prims, writes: map<nat, int>) | Faulted(prims: Prims, fault: Fault)

  datatype Config = Config(
    program: seq<Instruction>, entry: Entry, target: Target, abi: Abi,
    engine: (Instruction, Registers, Entry, Prims) -> EngineResult,
    settings: Settings)
  {
    predicate Valid() { ValidPcRange(entry, |program|, abi) }

    predicate InRange(pc: int) { entry.firstPc <= pc <= entry.lastPc }
  }

  /** The wires a target without primitives reads its predicates from. */
  datatype PredicateInputs = PredicateInputs(
    inputExhausted: bool, inputReady: bool, outputReady: bool, kernelDone: bool, transportDone: bool)

  /** Everything that may only influence when things happen. */
  datatype Timing = Timing(
    inputs: PredicateInputs, timeout: int, latency: int, cycles: (Instruction, Registers, Prims) -> int)

  /** The architectural state. `loops` maps a slot to (remaining count, start). */
  datatype Core = Core(
    pc: int, registers: Registers, eq: bool, signedLt: bool, unsignedLt: bool,
    retired: nat, stack: seq<int>, loops: map<nat, (nat, int)>)

  datatype Kernel = Kernel(
    result: Option<map<nat, int>>, fault: Option<Fault>, pendingFault: Option<Fault>,
    pendingDst: Option<nat>, cycles: int)

  const NO_KERNEL: Kernel := Kernel(None, None, None, None, 0)

  datatype Machine = Machine(
    core: Core, watchdog: int, prims: Option<Prims>, transport: Option<Transport>,
    kernel: Kernel, transportDst: set<nat>, transportFault: Option<Fault>)

  datatype Outcome = Next(m: Machine) | Done(m: Machine) | Trap(reason: nat, m: Machine)

  // ---------------------------------------------------------------- Writeback

  function ApplyWrites(registers: Registers, writes: map<nat, int>): Registers {
    seq(16, k requires 0 <= k < 16 => if k in writes then ToWord(writes[k]) else registers[k])
  }

  function CompleteKernel(m: Machine): Machine {
    if m.kernel.pendingFault.Some? then m.(kernel := NO_KERNEL.(fault := m.kernel.pendingFault))
    else if m.kernel.result.Some? then
      m.(core := m.core.(registers := ApplyWrites(m.core.registers, m.kernel.result.value)),
         prims := if m.prims.Some? then Some(m.prims.value.(kernelDone := true)) else None,
         kernel := NO_KERNEL.(fault := m.kernel.fault))
    else m.(kernel := NO_KERNEL.(fault := m.kernel.fault))
  }

  function TickKernel(m: Machine): Machine {
    if m.kernel.pendingDst.None? then m
    else
      var left := if m.kernel.cycles > 0 then m.kernel.cycles - 1 else m.kernel.cycles;
      var counted := m.(kernel := m.kernel.(cycles := left));
      if left == 0 then CompleteKernel(counted) else counted
  }

  /** Writes every completed command back and releases its register. */
  function Drain(m: Machine, t: Transport): Machine
    decreases |t.completed|
  {
    if t.completed == [] then m.(transport := Some(t))
    else
      var (register, value) := t.completed[0];
      Drain(m.(core := m.core.(registers := SetReg(m.core.registers, register, value)),
               transportDst := m.transportDst - {register}),
            t.(completed := t.completed[1..]))
  }

  function TickTransport(c: Config, m: Machine): Machine {
    if m.transport.None? || m.prims.None? then m
    else
      var done := Tick(c.settings, m.transport.value, m.prims.value, c.entry);
      var m' := m.(prims := Some(done.prims));
      if done.fault.Some? then m'.(transport := Some(done.transport), transportFault := done.fault)
      else Drain(m', done.transport)
  }

  function Ticks(c: Config, m: Machine): Machine { TickTransport(c, TickKernel(m)) }

  // ---------------------------------------------------------------- The scoreboard

  predicate UsesPending(i: Instruction, pending: nat) {
    if i.cls == CONTROL then i.opcode == END || (i.opcode == LOOP_SETUP && i.src0 == pending)
    else if i.cls == SCALAR then
      if i.opcode == MOV || i.opcode == SAT then i.src0 == pending || i.dst == pending
      else if i.opcode == MOVI then i.dst == pending
      else if i.opcode == CMP then i.src0 == pending || i.src1 == pending
      else i.src0 == pending || i.src1 == pending || i.dst == pending
    else true
  }

  function PendingRegisters(m: Machine): set<nat> {
    m.transportDst + (if m.kernel.pendingDst.Some? then {m.kernel.pendingDst.value} else {})
  }

  predicate PendingDependency(m: Machine, i: Instruction) {
    exists r :: r in PendingRegisters(m) && UsesPending(i, r)
  }

  /** Everything outside CONTROL and SCALAR waits until nothing is in flight. */
  lemma NothingPending(m: Machine, i: Instruction)
    requires i.cls > SCALAR
    ensures !PendingDependency(m, i) ==> PendingRegisters(m) == {}
  {
    if r :| r in PendingRegisters(m) {
      assert UsesPending(i, r);
    } else {
      assert PendingRegisters(m) == {};
    }
  }

  // ---------------------------------------------------------------- Cycles

  /** A cycle in which nothing retires. */
  function Stall(w: Timing, m: Machine): Outcome {
    var m' := m.(watchdog := m.watchdog + 1);
    if w.timeout <= 0 || m'.watchdog >= w.timeout then Trap(7, m') else Next(m')
  }

  /** A no-retirement cycle in which the kernel and the transport advance. */
  function Cycle(c: Config, w: Timing, m: Machine): Outcome { Stall(w, Ticks(c, m)) }

  function Cycles(c: Config, w: Timing, m: Machine, n: nat): Outcome
    decreases n
  {
    if n == 0 then Next(m)
    else
      match Cycle(c, w, m)
      case Next(m') => Cycles(c, w, m', n - 1)
      case Trap(reason, m') => Trap(reason, m')
      case Done(m') => Done(m')
  }

  function Retire(m: Machine): Machine { m.(core := m.core.(retired := m.core.retired + 1), watchdog := 0) }

  /** Retires the instruction and moves to `pc`. */
  function Advance(c: Config, m: Machine, pc: int): Outcome {
    var m' := Retire(m);
    if !c.InRange(pc) then Trap(2, m') else Next(m'.(core := m'.core.(pc := pc)))
  }

  // ---------------------------------------------------------------- Predicates

  /** The conditions 0..6 depend on the comparison flags alone. */
  predicate FlagPredicate(core: Core, k: nat) {
    if k == 1 then core.eq else if k == 2 then !core.eq
    else if k == 3 then core.signedLt else if k == 4 then !core.signedLt
    else if k == 5 then core.unsignedLt else if k == 6 then !core.unsignedLt
    else true
  }

  predicate PredicateHolds(c: Config, w: Timing, m: Machine, k: nat) {
    var live := !c.target.P3? && m.prims.Some?;
    if k <= 6 then FlagPredicate(m.core, k)
    else if k == 7 then
      if live then m.prims.value.input.eof && m.prims.value.input.words == [] && m.prims.value.input.bits == []
      else w.inputs.inputExhausted
    else if k == 8 then if live then m.prims.value.input.words != [] else w.inputs.inputReady
    else if k == 9 then if live then |m.prims.value.outputFifo| != FIFO_DEPTH else w.inputs.outputReady
    else if k == 10 then if live then m.prims.value.kernelDone else w.inputs.kernelDone
    else if m.transport.Some? then m.transport.value.pending == [] else w.inputs.transportDone
  }

  // ---------------------------------------------------------------- Instructions

  datatype ControlEffect = Goto(pc: int, core: Core) | Finish | NotReady | ControlTrap(reason: nat)

  /** `drained` tells END that no transport is outstanding, `ready` tells WAIT that
      its source is. */
  function ControlStep(e: Entry, core: Core, i: Instruction, drained: bool, ready: bool): ControlEffect {
    var next := core.pc + 1;
    var slot := i.aux % 4;
    if i.opcode == END then if drained then Finish else NotReady
    else if i.opcode == TRAP then ControlTrap(10)
    else if i.opcode == JUMP_FWD then Goto(next + i.immediate, core)
    else if i.opcode == CALL_FWD then
      if |core.stack| == 4 then ControlTrap(3)
      else Goto(next + i.immediate, core.(stack := core.stack + [next]))
    else if i.opcode == RET then
      if core.stack == [] then ControlTrap(3)
      else Goto(core.stack[|core.stack| - 1], core.(stack := core.stack[..|core.stack| - 1]))
    else if i.opcode == LOOP_SETUP then
      var count := Reg(core.registers, i.src0) % 0x1_0000;
      if slot in core.loops || count == 0 || count > e.maxLoopCount then ControlTrap(4)
      else Goto(next, core.(loops := core.loops[slot := (count, next)]))
    else if i.opcode == LOOP_BACK then
      if slot !in core.loops then ControlTrap(4)
      else
        var (count, start) := core.loops[slot];
        var target := next - i.immediate;
        if target != start || target < e.firstPc then ControlTrap(4)
        else if count > 1 then Goto(target, core.(loops := core.loops[slot := (count - 1, start)]))
        else Goto(next, core.(loops := core.loops - {slot}))
    else if i.opcode == WAIT then if ready then Goto(next, core) else NotReady
    else Goto(next, core)
  }

  predicate WaitReady(i: Instruction, prims: Option<Prims>, transport: Option<Transport>) {
    && prims.Some?
    && ( || ((i.aux == 0 || i.aux == 4 || i.aux == 5) && transport.Some? && transport.value.pending == [])
         || (i.aux == 1 && prims.value.kernelDone)
         || (i.aux == 2 && prims.value.input.words != [])
         || (i.aux == 3 && |prims.value.outputFifo| != FIFO_DEPTH))
  }

  function Saturate(value: word, aux: nat): int {
    var width := if aux % 0x20 == 0 then 32 else aux % 0x20;
    if aux / 0x20 % 2 == 1 then Min(Max(Signed32(value), -(Pow2(width - 1) as int)), Pow2(width - 1) - 1)
    else Min(value, Pow2(width) - 1)
  }

  /** The value a scalar instruction writes to its destination. */
  function Alu(i: Instruction, a: word, b: word): int {
    if i.opcode == MOV then a
    else if i.opcode == MOVI then i.immediate
    else if i.opcode == ADD then a + b
    else if i.opcode == SUB then a - b
    else if i.opcode == AND then BitAnd(a, b)
    else if i.opcode == OR then BitOr(a, b)
    else if i.opcode == XOR then BitXor(a, b)
    else if i.opcode == SHL then a * Pow2(b % 32)
    else if i.opcode == SHR then a / Pow2(b % 32)
    else if i.opcode == SAR then Signed32(a) / Pow2(b % 32)
    else if i.opcode == MIN then if i.aux != 0 then Min(Signed32(a), Signed32(b)) else Min(a, b)
    else if i.opcode == MAX then if i.aux != 0 then Max(Signed32(a), Signed32(b)) else Max(a, b)
    else Saturate(a, i.aux)
  }

  function ScalarStep(core: Core, i: Instruction): Core {
    var a, b := Reg(core.registers, i.src0), Reg(core.registers, i.src1);
    if i.opcode == CMP then core.(eq := a == b, signedLt := Signed32(a) < Signed32(b), unsignedLt := a < b)
    else core.(registers := SetReg(core.registers, i.dst, Alu(i, a, b)))
  }

  /** The bits an instruction wants buffered before it may execute. */
  function RequiredBits(i: Instruction, r: Registers): nat {
    if i.cls == BITSTREAM then
      if i.opcode <= SKIP then i.immediate % 0x40
      else if i.opcode == FRAME_SYNC then i.aux % 0x20
      else 0
    else if i.cls == ENTROPY then
      if i.opcode <= HUFF_QUAD then i.aux
      else if i.opcode == UNARY then i.immediate + 1
      else if i.opcode == SIGN_RESTORE then if Reg(r, i.src0) == 0 then 0 else Reg(r, i.src1) % 0x20 + 1
      else 1
    else 0
  }

  /** An instruction that has to wait for its FIFO. */
  predicate FifoBlocked(i: Instruction, p: Prims) {
    i.cls == LOCAL && ((i.opcode == FIFO_POP && p.input.words == [])
      || (i.opcode == FIFO_PUSH && |p.outputFifo| == FIFO_DEPTH))
  }

  predicate Starved(i: Instruction, r: Registers, p: Prims) { |p.input.bits| < RequiredBits(i, r) && !p.input.eof }

  function Buffered(i: Instruction, r: Registers, p: Prims): Prims { p.(input := Refill(p.input, RequiredBits(i, r))) }

  function TransportStep(c: Config, w: Timing, m: Machine, i: Instruction): Outcome {
    if m.transport.None? || m.prims.None? then Trap(6, m)
    else
      match IssueCommand(c.settings, m.transport.value, w.latency, i, m.core.registers, c.entry, m.prims.value)
      case Refused(fault) => Trap(fault.reason, m)
      case Busy => Stall(w, m)
      case Accepted(t) =>
        var issued := m.(transport := Some(t));
        if i.opcode <= OUTPUT_STREAM then
          Advance(c, issued.(transportDst := issued.transportDst + {i.dst}), m.core.pc + 1)
        else Advance(c, TickTransport(c, issued), m.core.pc + 1)
  }

  /** The engine call for an instruction whose operands are available. */
  function Invoke(c: Config, registers: Registers, p: Prims, i: Instruction): EngineResult {
    c.engine(i, registers, c.entry, if i.cls == KERNEL then p.(kernelDone := false) else p)
  }

  function PrimitiveStep(c: Config, w: Timing, m: Machine, i: Instruction): Outcome {
    if m.prims.None? then Trap(6, m)
    else if FifoBlocked(i, m.prims.value) then Stall(w, m)
    else
      var p := Buffered(i, m.core.registers, m.prims.value);
      if Starved(i, m.core.registers, p) then Stall(w, m.(prims := Some(p)))
      else
        var idle := Max(w.cycles(i, m.core.registers, p) - 1, 0);
        match Invoke(c, m.core.registers, p, i)
        case Faulted(p', fault) =>
          if i.cls != KERNEL || fault.reason == 5 then Trap(fault.reason, m.(prims := Some(p')))
          else
            var late := m.(prims := Some(p'.(kernelDone := false)),
                           kernel := m.kernel.(result := Some(map[]), pendingFault := Some(fault),
                             pendingDst := Some(i.dst), cycles := 0));
            Advance(c, CompleteKernel(late), m.core.pc + 1)
        case Executed(p', writes) =>
          if i.cls == KERNEL then
            var issued := m.(prims := Some(p'.(kernelDone := false)),
                             kernel := m.kernel.(result := Some(writes), pendingDst := Some(i.dst), cycles := idle));
            Advance(c, if idle == 0 then CompleteKernel(issued) else issued, m.core.pc + 1)
          else
            var written := m.(prims := Some(p'), core := m.core.(registers := ApplyWrites(m.core.registers, writes)));
            match Cycles(c, w, written, idle)
            case Next(m') => Advance(c, m', m.core.pc + 1)
            case Trap(reason, m') => Trap(reason, m')
            case Done(m') => Done(m')
  }

  /** An instruction whose predicate holds and whose registers are free. */
  function Execute(c: Config, w: Timing, m: Machine, i: Instruction): Outcome {
    if i.cls == CONTROL then
      var drained := m.transport.None? || m.transport.value.pending == [];
      match ControlStep(c.entry, m.core, i, drained, WaitReady(i, m.prims, m.transport))
      case Goto(pc, core) => Advance(c, m.(core := core), pc)
      case Finish => Done(Retire(m))
      case NotReady => Stall(w, m)
      case ControlTrap(reason) => Trap(reason, m)
    else if i.cls == SCALAR then Advance(c, m.(core := ScalarStep(m.core, i)), m.core.pc + 1)
    else if i.cls == TRANSPORT then TransportStep(c, w, m, i)
    else PrimitiveStep(c, w, m, i)
  }

  /** Predication and the scoreboard: a legal instruction is skipped, held or executed. */
  function Admit(c: Config, w: Timing, m: Machine, i: Instruction): Outcome {
    if !PredicateHolds(c, w, m, i.predicate_) then
      if m.core.pc == c.entry.lastPc || m.core.pc == (if c.abi.V1? then 0x7FF else 0xFFF) then Trap(2, m)
      else Next(Retire(m).(core := m.core.(retired := m.core.retired + 1, pc := m.core.pc + 1)))
    else if PendingDependency(m, i) then Stall(w, m)
    else Execute(c, w, m, i)
  }

  /** What happens after the ticks of a step. */
  function Decide(c: Config, w: Timing, m: Machine, i: Instruction): Outcome {
    if m.kernel.fault.Some? then Trap(m.kernel.fault.value.reason, m.(kernel := m.kernel.(fault := None)))
    else if m.transportFault.Some? then Trap(m.transportFault.value.reason, m.(transportFault := None))
    else if !ValidInstruction(i, c.target, c.abi) then Trap(1, m)
    else if m.core.retired >= c.entry.maxRetired then Trap(8, m)
    else Admit(c, w, m, i)
  }

  /** `Machine.step` */
  function Step(c: Config, w: Timing, m: Machine): Outcome
    requires c.Valid()
  {
    if !c.InRange(m.core.pc) then Trap(2, m)
    else Decide(c, w, Ticks(c, m), c.program[m.core.pc])
  }

  // ---------------------------------------------------------------- Runs

  /** A run is any mixture of steps and of the no-retirement cycles spent on fetches
      and stalls. */
  datatype Event = StepEvent | CycleEvent

  function Happen(c: Config, w: Timing, m: Machine, event: Event): Outcome
    requires c.Valid()
  {
    match event
    case StepEvent => Step(c, w, m)
    case CycleEvent => Cycle(c, w, m)
  }

  function Exec(c: Config, w: Timing, m: Machine, events: seq<Event>): Outcome
    requires c.Valid()
    decreases |events|
  {
    if events == [] then Next(m)
    else
      match Happen(c, w, m, events[0])
      case Next(m') => Exec(c, w, m', events[1..])
      case Done(m') => Done(m')
      case Trap(reason, m') => Trap(reason, m')
  }

  /** `begin_entry`: the state a job starts from. `memory` is what earlier jobs left. */
  function Boot(c: Config, memory: Option<Memory>, transport: bool): Machine {
    Machine(
      Core(c.entry.entryPc, seq(16, _ => 0), false, false, false, 0, [], map[]), 0,
      if memory.Some? then Some(Prims(NewEpoch(memory.value), EMPTY, [], false, None)) else None,
      if transport then Some(IDLE) else None,
      NO_KERNEL, {}, None)
  }
}

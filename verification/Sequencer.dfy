/** The sequencer as the object it is: fields updated in place, a step, and a run loop
    that is proved to terminate within its budgets. Every method is tied to the step
    function the other modules reason about. */
module Sequencer {
  import opened Common
  import opened Arithmetic
  import opened Isa
  import opened Memory
  import opened Transport
  import M = Machine
  import Reservoir

  /** How a method that may raise a sequencer trap ends. */
  datatype Signal = Running | Finished | Trapped(reason: nat)

  ghost predicate Reflects(o: M.Outcome, signal: Signal, state: M.Machine) {
    match o
    case Next(m) => signal.Running? && state == m
    case Done(m) => signal.Finished? && state == m
    case Trap(reason, m) => signal == Trapped(reason) && state == m
  }

  /** The idle cycles that `retirements` retirements pay for. */
  ghost function Allowance(retirements: nat, timeout: nat): nat {
    MulNonNegative(retirements, timeout);
    retirements * timeout
  }

  /** One more event at the end of a run. */
  lemma {:induction false} ExecAppend(c: M.Config, w: M.Timing, m: M.Machine, events: seq<M.Event>, event: M.Event)
    requires c.Valid() && M.Exec(c, w, m, events).Next?
    ensures M.Exec(c, w, m, events + [event]) == M.Happen(c, w, M.Exec(c, w, m, events).m, event)
    decreases |events|
  {
    hide M.Happen;
    if events == [] {
      assert events + [event] == [event];
      assert [event][1..] == [];
    } else {
      assert (events + [event])[1..] == events[1..] + [event];
      ExecAppend(c, w, M.Happen(c, w, m, events[0]).m, events[1..], event);
    }
  }

  class Sequencer {
    const c: M.Config
    const w: M.Timing
    const fetchCycles: nat
    var stallCycles: map<int, nat>

    var pc: int
    var registers: Registers
    var eq: bool
    var signedLt: bool
    var unsignedLt: bool
    var retired: nat
    var returnStack: seq<int>
    var loops: map<nat, (nat, int)>
    var watchdog: int
    var prims: Option<Prims>
    var transport: Option<Transport>
    var kernelResult: Option<map<nat, int>>
    var kernelFault: Option<Fault>
    var kernelPendingFault: Option<Fault>
    var kernelPendingDst: Option<nat>
    var kernelCycles: int
    var transportPendingDst: set<nat>
    var transportFault: Option<Fault>

    /** Counts every no-retirement cycle since the job began. */
    ghost var idle: nat

    ghost function Core(): M.Core
      reads this
    {
      M.Core(pc, registers, eq, signedLt, unsignedLt, retired, returnStack, loops)
    }

    ghost function State(): M.Machine
      reads this
    {
      M.Machine(Core(), watchdog, prims, transport,
                M.Kernel(kernelResult, kernelFault, kernelPendingFault, kernelPendingDst, kernelCycles),
                transportPendingDst, transportFault)
    }

    ghost function Timeout(): nat { Max(w.timeout, 1) }

    /** Idle cycles are paid for by retirements and by the running watchdog. */
    ghost predicate Paid()
      reads this
    {
      idle <= Allowance(retired, Timeout()) + watchdog && 0 <= watchdog
    }

    /** The state between two instructions of a running job. */
    ghost predicate InBudget()
      reads this
    {
      Paid() && watchdog < Timeout() && retired <= c.entry.maxRetired
    }

    constructor (config: M.Config, timing: M.Timing, fetch: nat, stalls: map<int, nat>, memory: Option<Memory>,
      hasTransport: bool)
      requires config.Valid()
      ensures c == config && w == timing && fetchCycles == fetch && stallCycles == stalls
      ensures State() == M.Boot(config, memory, hasTransport) && InBudget()
    {
      c, w, fetchCycles, stallCycles := config, timing, fetch, stalls;
      pc, retired, watchdog, idle := config.entry.entryPc, 0, 0, 0;
      registers := seq(16, _ => 0);
      eq, signedLt, unsignedLt := false, false, false;
      returnStack, loops := [], map[];
      var boot := M.Boot(config, memory, hasTransport);
      prims, transport := boot.prims, boot.transport;
      kernelResult, kernelFault, kernelPendingFault, kernelPendingDst, kernelCycles := None, None, None, None, 0;
      transportPendingDst, transportFault := {}, None;
    }

    method Write(register: nat, value: int)
      modifies this`registers
      ensures registers == SetReg(old(registers), register, value)
    {
      if register < 16 {
        registers := registers[register := ToWord(value)];
      }
    }

    method WriteAll(writes: map<nat, int>)
      modifies this`registers
      ensures registers == M.ApplyWrites(old(registers), writes)
    {
      ghost var before := registers;
      for k := 0 to 16
        invariant forall j :: 0 <= j < 16 ==>
          registers[j] == if j < k && j in writes then ToWord(writes[j]) else before[j]
      {
        if k in writes {
          Write(k, writes[k]);
        }
      }
    }

    method LandKernel()
      requires kernelResult.Some?
      modifies this`registers, this`prims
      ensures registers == M.ApplyWrites(old(registers), kernelResult.value)
      ensures prims == if old(prims).Some? then Some(old(prims).value.(kernelDone := true)) else None
    {
      WriteAll(kernelResult.value);
      if prims.Some? {
        prims := Some(prims.value.(kernelDone := true));
      }
    }

    method CompleteKernel()
      modifies this`registers, this`prims, this`kernelResult, this`kernelFault, this`kernelPendingFault,
               this`kernelPendingDst, this`kernelCycles
      ensures State() == M.CompleteKernel(old(State()))
    {
      hide M.ApplyWrites;
      if kernelPendingFault.Some? {
        kernelFault := kernelPendingFault;
      } else if kernelResult.Some? {
        LandKernel();
      }
      kernelResult, kernelPendingFault, kernelPendingDst, kernelCycles := None, None, None, 0;
    }

    method TickKernel()
      modifies this`registers, this`prims, this`kernelResult, this`kernelFault, this`kernelPendingFault,
               this`kernelPendingDst, this`kernelCycles
      ensures State() == M.TickKernel(old(State()))
    {
      if kernelPendingDst.None? {
        return;
      }
      if kernelCycles > 0 {
        kernelCycles := kernelCycles - 1;
      }
      if kernelCycles == 0 {
        CompleteKernel();
      }
    }

    method TickTransport()
      modifies this`registers, this`prims, this`transport, this`transportPendingDst, this`transportFault
      ensures State() == M.TickTransport(c, old(State()))
    {
      if transport.None? || prims.None? {
        return;
      }
      var done := Tick(c.settings, transport.value, prims.value, c.entry);
      prims := Some(done.prims);
      if done.fault.Some? {
        transport, transportFault := Some(done.transport), done.fault;
        return;
      }
      var completed := done.transport.completed;
      ghost var goal := M.Drain(State(), done.transport);
      while completed != []
        invariant M.Drain(State(), done.transport.(completed := completed)) == goal
        invariant State() == old(State()).(core := Core(), prims := prims, transportDst := transportPendingDst)
        decreases |completed|
      {
        var (register, value) := completed[0];
        completed := completed[1..];
        Write(register, value);
        transportPendingDst := transportPendingDst - {register};
      }
      transport := Some(done.transport.(completed := []));
    }

    /** One cycle in which nothing retires, with or without the engines advancing. */
    method NoRetirementCycle(tick: bool) returns (signal: Signal)
      requires Paid() && watchdog < Timeout()
      modifies this
      ensures stallCycles == old(stallCycles) && retired == old(retired) && pc == old(pc)
      ensures Reflects(if tick then M.Cycle(c, w, old(State())) else M.Stall(w, old(State())), signal, State())
      ensures Paid() && watchdog == old(watchdog) + 1 <= Timeout()
      ensures signal.Running? ==> watchdog < Timeout()
    {
      hide Allowance, M.TickTransport, M.TickKernel;
      if tick {
        TicksKeepCounters(c, State());
        TickKernel();
        TickTransport();
      }
      watchdog, idle := watchdog + 1, idle + 1;
      signal := if w.timeout <= 0 || watchdog >= w.timeout then Trapped(7) else Running;
    }

    method Retire()
      requires Paid() && watchdog < Timeout()
      modifies this`retired, this`watchdog
      ensures State() == M.Retire(old(State())) && Paid()
    {
      Distribute(retired, 1, Timeout());
      retired, watchdog := retired + 1, 0;
    }

    /** Retires and moves to `next`, or traps when it leaves the range. */
    method Advance(next: int) returns (signal: Signal)
      requires Paid() && watchdog < Timeout()
      modifies this`retired, this`watchdog, this`pc
      ensures Reflects(M.Advance(c, old(State()), next), signal, State())
      ensures Paid() && watchdog == 0 && retired == old(retired) + 1
    {
      Retire();
      if next < c.entry.firstPc || next > c.entry.lastPc {
        return Trapped(2);
      }
      pc := next;
      signal := Running;
    }

    ghost predicate Stepped(o: M.Outcome, signal: Signal, before: M.Machine)
      reads this
    {
      && Reflects(o, signal, State()) && Paid() && watchdog <= Timeout()
      && (signal.Running? ==>
            || (retired == before.core.retired && before.watchdog < watchdog < Timeout())
            || (retired == before.core.retired + 1 && watchdog == 0))
      && (signal.Finished? ==> retired == before.core.retired + 1)
      && (signal.Trapped? ==> retired <= before.core.retired + 1)
    }

    /** Decides a control instruction and updates the call stack and the loop slots. */
    method Branch(i: Instruction) returns (verdict: M.ControlEffect, next: int)
      modifies this`returnStack, this`loops
      ensures var effect := M.ControlStep(c.entry, old(Core()), i,
                                          transport.None? || transport.value.pending == [],
                                            M.WaitReady(i, prims, transport));
        if effect.Goto? then verdict.Goto? && next == effect.pc && Core() == effect.core
        else verdict == effect && Core() == old(Core())
    {
      hide M.WaitReady;
      next := pc + 1;
      ghost var before := Core();
      verdict := M.Goto(next, M.Core(pc, registers, eq, signedLt, unsignedLt, retired, returnStack, loops));
      var slot := i.aux % 4;
      if i.opcode == END {
        verdict := if transport.Some? && transport.value.pending != [] then M.NotReady else M.Finish;
      } else if i.opcode == TRAP {
        verdict := M.ControlTrap(10);
      } else if i.opcode == JUMP_FWD {
        next := next + i.immediate;
      } else if i.opcode == CALL_FWD {
        if |returnStack| == 4 {
          verdict := M.ControlTrap(3);
          return;
        }
        returnStack := returnStack + [next];
        next := next + i.immediate;
      } else if i.opcode == RET {
        if returnStack == [] {
          verdict := M.ControlTrap(3);
          return;
        }
        next := returnStack[|returnStack| - 1];
        returnStack := returnStack[..|returnStack| - 1];
      } else if i.opcode == LOOP_SETUP {
        var count := Reg(registers, i.src0) % 0x1_0000;
        if slot in loops || count == 0 || count > c.entry.maxLoopCount {
          verdict := M.ControlTrap(4);
          return;
        }
        loops := loops[slot := (count, next)];
      } else if i.opcode == LOOP_BACK {
        if slot !in loops {
          verdict := M.ControlTrap(4);
          return;
        }
        var (count, start) := loops[slot];
        var target := next - i.immediate;
        if target != start || target < c.entry.firstPc {
          verdict := M.ControlTrap(4);
          return;
        }
        if count > 1 {
          loops := loops[slot := (count - 1, start)];
          next := target;
        } else {
          loops := loops - {slot};
        }
      } else if i.opcode == WAIT {
        if !M.WaitReady(i, prims, transport) {
          verdict := M.NotReady;
        }
      }
    }

    method StepControl(i: Instruction) returns (signal: Signal)
      requires i.cls == CONTROL && Paid() && watchdog < Timeout()
      modifies this
      ensures stallCycles == old(stallCycles)
      ensures Stepped(M.Execute(c, w, old(State()), i), signal, old(State()))
    {
      hide M.Execute, M.ControlStep, M.WaitReady, M.Advance, Allowance;
      ghost var before := State();
      ghost var drained, ready := transport.None? || transport.value.pending == [], M.WaitReady(i, prims, transport);
      ghost var effect := M.ControlStep(c.entry, Core(), i, drained, ready);
      ControlKeepsCounters(c.entry, Core(), i, drained, ready);
      ControlOutcome(c, w, State(), i);
      var verdict, next := Branch(i);
      match verdict
      case Goto(_, _) =>
        assert State() == before.(core := effect.core);
        signal := Advance(next);
      case Finish =>
        Retire();
        signal := Finished;
      case NotReady => signal := NoRetirementCycle(false);
      case ControlTrap(reason) => signal := Trapped(reason);
    }

    method Compute(i: Instruction)
      modifies this`registers, this`eq, this`signedLt, this`unsignedLt
      ensures Core() == M.ScalarStep(old(Core()), i)
    {
      hide M.Alu;
      var a, b := Reg(registers, i.src0), Reg(registers, i.src1);
      if i.opcode == CMP {
        eq, signedLt, unsignedLt := a == b, Signed32(a) < Signed32(b), a < b;
      } else {
        Write(i.dst, M.Alu(i, a, b));
      }
    }

    method StepScalar(i: Instruction) returns (signal: Signal)
      requires i.cls == SCALAR && Paid() && watchdog < Timeout()
      modifies this
      ensures stallCycles == old(stallCycles)
      ensures Stepped(M.Execute(c, w, old(State()), i), signal, old(State()))
    {
      hide M.ScalarStep, Allowance;
      Compute(i);
      signal := Advance(pc + 1);
    }

    method StepTransport(i: Instruction) returns (signal: Signal)
      requires Paid() && watchdog < Timeout()
      modifies this
      ensures stallCycles == old(stallCycles)
      ensures Stepped(M.TransportStep(c, w, old(State()), i), signal, old(State()))
    {
      hide IssueCommand, M.TickTransport, Allowance;
      if transport.None? || prims.None? {
        return Trapped(6);
      }
      var issue := IssueCommand(c.settings, transport.value, w.latency, i, registers, c.entry, prims.value);
      if issue.Refused? {
        return Trapped(issue.fault.reason);
      }
      if issue.Busy? {
        signal := NoRetirementCycle(false);
        return;
      }
      transport := Some(issue.transport);
      if i.opcode <= OUTPUT_STREAM {
        transportPendingDst := transportPendingDst + {i.dst};
      } else {
        TransportTickKeepsCounters(c, State());
        TickTransport();
      }
      signal := Advance(pc + 1);
    }

    /** Starts a kernel whose result lands after `cycles`. */
    method IssueKernel(i: Instruction, writes: map<nat, int>, cycles: int)
      requires prims.Some?
      modifies this`registers, this`prims, this`kernelResult, this`kernelFault, this`kernelPendingFault,
               this`kernelPendingDst, this`kernelCycles
      ensures State() == Issued(old(State()), i, writes, cycles)
    {
      prims := Some(prims.value.(kernelDone := false));
      kernelResult := Some(writes);
      kernelPendingDst := Some(i.dst);
      kernelCycles := Max(cycles - 1, 0);
      if kernelCycles == 0 {
        CompleteKernel();
      }
    }

    ghost predicate EngineReady(i: Instruction)
      reads this
    {
      && Paid() && watchdog < Timeout() && prims.Some?
      && !M.FifoBlocked(i, prims.value) && !M.Starved(i, registers, prims.value)
      && M.Buffered(i, registers, prims.value) == prims.value
    }

    /** Calls the engine for a kernel; the result lands later. */
    method CallKernel(i: Instruction) returns (signal: Signal)
      requires EngineReady(i) && i.cls == KERNEL
      modifies this
      ensures stallCycles == old(stallCycles)
      ensures Stepped(M.PrimitiveStep(c, w, old(State()), i), signal, old(State()))
    {
      hide M.PrimitiveStep, M.Invoke, M.Buffered, M.Starved, M.FifoBlocked, M.Advance, Issued, Allowance;
      KernelOutcome(c, w, State(), i);
      var cycles := w.cycles(i, registers, prims.value);
      var result := M.Invoke(c, registers, prims.value, i);
      prims := Some(result.prims);
      if result.Executed? {
        IssueKernel(i, result.writes, cycles);
      } else if result.fault.reason == 5 {
        return Trapped(5);
      } else {
        kernelPendingFault := Some(result.fault);
        IssueKernel(i, map[], 1);
      }
      signal := Advance(pc + 1);
    }

    /** Calls the engine for any other primitive. */
    method CallEngine(i: Instruction) returns (signal: Signal)
      requires EngineReady(i) && i.cls != KERNEL
      modifies this
      ensures stallCycles == old(stallCycles)
      ensures Stepped(M.PrimitiveStep(c, w, old(State()), i), signal, old(State()))
    {
      hide M.Cycles, M.Buffered, M.Starved, M.FifoBlocked, M.ApplyWrites, Allowance;
      var cycles := w.cycles(i, registers, prims.value);
      var result := M.Invoke(c, registers, prims.value, i);
      prims := Some(result.prims);
      if result.Faulted? {
        return Trapped(result.fault.reason);
      }
      WriteAll(result.writes);
      signal := SpendCycles(Max(cycles - 1, 0));
      if signal.Running? {
        signal := Advance(pc + 1);
      }
    }

    method StepPrimitive(i: Instruction) returns (signal: Signal)
      requires Paid() && watchdog < Timeout()
      modifies this
      ensures stallCycles == old(stallCycles)
      ensures Stepped(M.PrimitiveStep(c, w, old(State()), i), signal, old(State()))
    {
      hide Allowance, M.Cycles, M.Starved, M.FifoBlocked, M.Advance, M.CompleteKernel;
      if prims.None? {
        return Trapped(6);
      }
      if M.FifoBlocked(i, prims.value) {
        signal := NoRetirementCycle(false);
        return;
      }
      BufferedTwice(i, registers, prims.value);
      prims := Some(M.Buffered(i, registers, prims.value));
      if M.Starved(i, registers, prims.value) {
        signal := NoRetirementCycle(false);
        return;
      }
      if i.cls == KERNEL {
        signal := CallKernel(i);
      } else {
        signal := CallEngine(i);
      }
    }

    /** The remaining cycles of a multi-cycle primitive. */
    method SpendCycles(n: nat) returns (signal: Signal)
      requires Paid() && watchdog < Timeout()
      modifies this
      ensures stallCycles == old(stallCycles) && retired == old(retired) && pc == old(pc)
      ensures Reflects(M.Cycles(c, w, old(State()), n), signal, State())
      ensures Paid() && old(watchdog) <= watchdog <= Timeout() && !signal.Finished?
      ensures signal.Running? ==> watchdog < Timeout()
    {
      hide Allowance, M.Cycle;
      signal := Running;
      var left := n;
      ghost var goal := M.Cycles(c, w, State(), n);
      while left > 0
        invariant 0 <= left && signal.Running?
        invariant Paid() && old(watchdog) <= watchdog < Timeout()
        invariant stallCycles == old(stallCycles) && retired == old(retired) && pc == old(pc)
        invariant M.Cycles(c, w, State(), left) == goal
      {
        CycleKind(c, w, State());
        signal := NoRetirementCycle(true);
        if !signal.Running? {
          return;
        }
        left := left - 1;
      }
    }

    /** `step` */
    method Step() returns (signal: Signal)
      requires c.Valid() && InBudget()
      modifies this
      ensures stallCycles == old(stallCycles)
      ensures Stepped(M.Step(c, w, old(State())), signal, old(State()))
      ensures retired <= c.entry.maxRetired
    {
      hide Allowance, M.Admit, M.TickTransport, M.TickKernel, ValidInstruction;
      if pc < c.entry.firstPc || pc > c.entry.lastPc {
        return Trapped(2);
      }
      var i := c.program[pc];
      TicksKeepCounters(c, State());
      TickKernel();
      TickTransport();
      ghost var ticked := State();
      if kernelFault.Some? {
        signal := Trapped(kernelFault.value.reason);
        kernelFault := None;
        return;
      }
      if transportFault.Some? {
        signal := Trapped(transportFault.value.reason);
        transportFault := None;
        return;
      }
      if !ValidInstruction(i, c.target, c.abi) {
        return Trapped(1);
      }
      if retired >= c.entry.maxRetired {
        return Trapped(8);
      }
      signal := Decode(i);
    }

    /** Predication and the scoreboard. */
    method Decode(i: Instruction) returns (signal: Signal)
      requires Paid() && watchdog < Timeout()
      modifies this
      ensures stallCycles == old(stallCycles)
      ensures Stepped(M.Admit(c, w, old(State()), i), signal, old(State()))
    {
      hide Allowance, M.Execute, M.PredicateHolds, M.PendingDependency;
      if !Holds(i.predicate_) {
        if pc == c.entry.lastPc || pc == (if c.abi.V1? then 0x7FF else 0xFFF) {
          return Trapped(2);
        }
        Retire();
        pc := pc + 1;
        signal := Running;
      } else if Blocked(i) {
        signal := NoRetirementCycle(false);
      } else {
        signal := Dispatch(i);
      }
    }

    function Holds(k: nat): bool
      reads this
      ensures Holds(k) == M.PredicateHolds(c, w, State(), k)
    {
      var live := !c.target.P3? && prims.Some?;
      if k == 1 then eq else if k == 2 then !eq
      else if k == 3 then signedLt else if k == 4 then !signedLt
      else if k == 5 then unsignedLt else if k == 6 then !unsignedLt
      else if k == 0 then true
      else if k == 7 then
        if live then prims.value.input.eof && prims.value.input.words == [] && prims.value.input.bits == []
        else w.inputs.inputExhausted
      else if k == 8 then if live then prims.value.input.words != [] else w.inputs.inputReady
      else if k == 9 then if live then |prims.value.outputFifo| != 64 else w.inputs.outputReady
      else if k == 10 then if live then prims.value.kernelDone else w.inputs.kernelDone
      else if transport.Some? then transport.value.pending == [] else w.inputs.transportDone
    }

    function Blocked(i: Instruction): bool
      reads this
      ensures Blocked(i) == M.PendingDependency(State(), i)
    {
      assert kernelPendingDst.Some? ==> kernelPendingDst.value in M.PendingRegisters(State());
      assert forall r :: r in transportPendingDst ==> r in M.PendingRegisters(State());
      (exists r :: r in transportPendingDst && M.UsesPending(i, r))
      || (kernelPendingDst.Some? && M.UsesPending(i, kernelPendingDst.value))
    }

    method Dispatch(i: Instruction) returns (signal: Signal)
      requires Paid() && watchdog < Timeout()
      modifies this
      ensures stallCycles == old(stallCycles)
      ensures Stepped(M.Execute(c, w, old(State()), i), signal, old(State()))
    {
      hide Allowance, M.TransportStep, M.PrimitiveStep, M.ControlStep, M.ScalarStep, M.WaitReady;
      if i.cls == CONTROL {
        signal := StepControl(i);
      } else if i.cls == SCALAR {
        signal := StepScalar(i);
      } else if i.cls == TRANSPORT {
        signal := StepTransport(i);
      } else {
        signal := StepPrimitive(i);
      }
    }

    /** Fetch delay and stalls before an instruction. */
    method Fetch(ghost start: M.Machine, ghost before: seq<M.Event>)
      returns (signal: Signal, ghost events: seq<M.Event>)
      requires c.Valid() && InBudget()
      requires M.Exec(c, w, start, before) == M.Next(State())
      modifies this
      ensures Reflects(M.Exec(c, w, start, events), signal, State()) && !signal.Finished?
      ensures Paid() && retired == old(retired) && old(watchdog) <= watchdog <= Timeout()
      ensures signal.Running? ==> InBudget() && pc == old(pc)
    {
      hide Allowance, M.Cycle, M.Exec;
      signal, events := Running, before;
      var stalls := if pc in stallCycles then stallCycles[pc] else 0;
      var left := fetchCycles + stalls;
      while left > 0
        invariant 0 <= left && signal.Running? && InBudget() && retired == old(retired) && old(watchdog) <= watchdog
        invariant pc == old(pc) && M.Exec(c, w, start, events) == M.Next(State())
      {
        ExecAppend(c, w, start, events, M.CycleEvent);
        CycleKind(c, w, State());
        events := events + [M.CycleEvent];
        signal := NoRetirementCycle(true);
        if !signal.Running? {
          return;
        }
        left := left - 1;
      }
      stallCycles := stallCycles[pc := 0];
    }

    /** `run`: it always ends, in END or a trap, and is one of the runs the theorems
        quantify over; retirements stay within the entry's budget and the cycles
        without a retirement within (budget + 1) timeouts. */
    method Run() returns (signal: Signal, ghost events: seq<M.Event>)
      requires c.Valid() && InBudget()
      modifies this
      ensures !signal.Running?
      ensures Reflects(M.Exec(c, w, old(State()), events), signal, State())
      ensures retired <= c.entry.maxRetired
      ensures idle <= (c.entry.maxRetired + 1) * Timeout()
    {
      hide Allowance, M.Exec, M.Happen, M.Step;
      var fetchRequired := true;
      events := [];
      ghost var start := State();
      assert M.Exec(c, w, start, events) == M.Next(State()) by { EmptyRun(c, w, start); }
      while true
        invariant InBudget() && M.Exec(c, w, start, events) == M.Next(State())
        decreases c.entry.maxRetired - retired, Timeout() - watchdog
      {
        label Top:
        if fetchRequired && c.entry.firstPc <= pc <= c.entry.lastPc {
          signal, events := Fetch(start, events);
          if !signal.Running? {
            WithinBudget(idle, retired, watchdog, c.entry.maxRetired, Timeout());
            return;
          }
        }
        var before := retired;
        ExecAppend(c, w, start, events, M.StepEvent);
        StepHappens(c, w, State());
        events := events + [M.StepEvent];
        signal := Step();
        if !signal.Running? {
          WithinBudget(idle, retired, watchdog, c.entry.maxRetired, Timeout());
          return;
        }
        fetchRequired := retired != before;
      }
    }
  }

  lemma EmptyRun(c: M.Config, w: M.Timing, m: M.Machine)
    requires c.Valid()
    ensures M.Exec(c, w, m, []) == M.Next(m)
  {
  }

  lemma StepHappens(c: M.Config, w: M.Timing, m: M.Machine)
    requires c.Valid()
    ensures M.Happen(c, w, m, M.StepEvent) == M.Step(c, w, m)
  {
  }

  lemma WithinBudget(idle: nat, retired: nat, watchdog: int, budget: nat, timeout: nat)
    requires idle <= Allowance(retired, timeout) + watchdog && watchdog <= timeout && retired <= budget
    ensures idle <= (budget + 1) * timeout
  {
    MulMonotone(retired, budget, timeout);
    Distribute(budget, 1, timeout);
  }

  lemma {:induction false} DrainKeepsCounters(m: M.Machine, t: Transport)
    ensures var m' := M.Drain(m, t);
      m'.core == m.core.(registers := m'.core.registers) && m'.watchdog == m.watchdog
    decreases |t.completed|
  {
    if t.completed == [] {
    } else {
      var (register, value) := t.completed[0];
      DrainKeepsCounters(
        m.(core := m.core.(registers := SetReg(m.core.registers, register, value)),
          transportDst := m.transportDst - {register}),
        t.(completed := t.completed[1..]));
    }
  }

  lemma TransportTickKeepsCounters(c: M.Config, m: M.Machine)
    ensures var m' := M.TickTransport(c, m);
      m'.core == m.core.(registers := m'.core.registers) && m'.watchdog == m.watchdog
  {
    hide Tick;
    if m.transport.Some? && m.prims.Some? {
      var done := Tick(c.settings, m.transport.value, m.prims.value, c.entry);
      DrainKeepsCounters(m.(prims := Some(done.prims)), done.transport);
    }
  }

  lemma TicksKeepCounters(c: M.Config, m: M.Machine)
    ensures var m' := M.Ticks(c, m);
      m'.core == m.core.(registers := m'.core.registers) && m'.watchdog == m.watchdog
  {
    hide M.TickTransport;
    TransportTickKeepsCounters(c, M.TickKernel(m));
  }

  lemma CycleKind(c: M.Config, w: M.Timing, m: M.Machine)
    ensures !M.Cycle(c, w, m).Done? && (c.Valid() ==> M.Happen(c, w, m, M.CycleEvent) == M.Cycle(c, w, m))
  {
    hide M.Ticks;
  }

  lemma ControlKeepsCounters(e: Entry, core: M.Core, i: Instruction, drained: bool, ready: bool)
    ensures var effect := M.ControlStep(e, core, i, drained, ready);
      effect.Goto? ==> effect.core.retired == core.retired && effect.core.pc == core.pc
  {
  }

  lemma ControlOutcome(c: M.Config, w: M.Timing, m: M.Machine, i: Instruction)
    requires i.cls == CONTROL
    ensures M.Execute(c, w, m, i) ==
      match M.ControlStep(c.entry, m.core, i, m.transport.None? || m.transport.value.pending == [],
        M.WaitReady(i, m.prims, m.transport))
      case Goto(pc, core) => M.Advance(c, m.(core := core), pc)
      case Finish => M.Done(M.Retire(m))
      case NotReady => M.Stall(w, m)
      case ControlTrap(reason) => M.Trap(reason, m)
  {
    hide M.ControlStep, M.WaitReady, M.Advance, M.Stall;
  }

  /** The state behind the issue of a kernel, whose result lands after `cycles`. */
  ghost function Issued(m: M.Machine, i: Instruction, writes: map<nat, int>, cycles: int): M.Machine
    requires m.prims.Some?
  {
    var idle := Max(cycles - 1, 0);
    var issued := m.(
      prims := Some(m.prims.value.(kernelDone := false)),
      kernel := m.kernel.(result := Some(writes), pendingDst := Some(i.dst), cycles := idle));
    if idle == 0 then M.CompleteKernel(issued) else issued
  }

  /** The three outcomes of a kernel: it is issued, it faults late, or its operands are bad. */
  lemma KernelOutcome(c: M.Config, w: M.Timing, m: M.Machine, i: Instruction)
    requires i.cls == KERNEL && m.prims.Some? && !M.FifoBlocked(i, m.prims.value)
    requires !M.Starved(i, m.core.registers, m.prims.value)
    requires M.Buffered(i, m.core.registers, m.prims.value) == m.prims.value
    ensures var result := M.Invoke(c, m.core.registers, m.prims.value, i);
      var called := m.(prims := Some(result.prims));
      var late := if result.Faulted? then called.(kernel := m.kernel.(pendingFault := Some(result.fault))) else called;
      M.PrimitiveStep(c, w, m, i)
      == if result.Faulted? && result.fault.reason == 5 then M.Trap(5, called)
         else if result.Faulted? then M.Advance(c, Issued(late, i, map[], 1), m.core.pc + 1)
         else M.Advance(
             c, Issued(called, i, result.writes, w.cycles(i, m.core.registers, m.prims.value)), m.core.pc + 1)
  {
    hide M.Advance, M.CompleteKernel, M.FifoBlocked, M.Starved, M.Buffered;
  }

  lemma BufferedTwice(i: Instruction, r: Registers, p: Prims)
    ensures M.Buffered(i, r, M.Buffered(i, r, p)) == M.Buffered(i, r, p)
    ensures !M.FifoBlocked(i, p) ==> !M.FifoBlocked(i, M.Buffered(i, r, p))
  {
    Reservoir.RefillTwice(p.input, M.RequiredBits(i, r));
  }
}

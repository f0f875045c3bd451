/** The scoreboard hides all timing. A machine with operations in flight is related
    to the state it will have once they have landed; each retirement is then one
    step of an atomic machine in which every operation completes before the next
    instruction, so delays can neither change a result nor turn success into a
    fault other than the watchdog's. */
module Latency {
  import opened Common
  import opened Isa
  import opened Memory
  import opened Reservoir
  import opened Transport
  import opened Machine

  // ---------------------------------------------------------------- Landing

  /** What the operations in flight will do; it does not depend on the core. */
  datatype Landing =
    | Landing(writes: map<nat, int>, prims: Option<Prims>, transport: Option<Transport>)
    | Crash

  function LandCommand(c: Config, t: Transport, p: Prims, command: Command): Landing {
    var done := Complete(c.settings, t.(pending := [command.(cycles := 0)]), p, c.entry, command.(cycles := 0));
    if done.fault.Some? then Crash
    else Landing(map[command.destination := command.count], Some(done.prims), Some(done.transport.(completed := [])))
  }

  function Land(c: Config, m: Machine): Landing {
    if m.kernel.fault.Some? || m.transportFault.Some? then Crash
    else if m.kernel.pendingDst.Some? then
      Landing(if m.kernel.result.Some? then m.kernel.result.value else map[],
              if m.prims.Some? then Some(m.prims.value.(kernelDone := true)) else None, m.transport)
    else if m.transport.Some? && m.prims.Some? && m.transport.value.pending != [] then
      LandCommand(c, m.transport.value, m.prims.value, m.transport.value.pending[0])
    else Landing(map[], m.prims, m.transport)
  }

  function Written(core: Core, writes: map<nat, int>): Core { core.(registers := ApplyWrites(core.registers, writes)) }

  /** The timing-free state of a machine: `Doomed` when an operation in flight or
      already landed has failed. */
  datatype Settled = Live(core: Core, prims: Option<Prims>, transport: Option<Transport>) | Doomed

  function Flush(c: Config, m: Machine): Settled {
    match Land(c, m)
    case Crash => Doomed
    case Landing(writes, prims, transport) => Live(Written(m.core, writes), prims, transport)
  }

  // ---------------------------------------------------------------- The atomic machine

  /** A machine with nothing in flight. */
  function Still(l: Settled): Machine
    requires l.Live?
  {
    Machine(l.core, 0, l.prims, l.transport, NO_KERNEL, {}, None)
  }

  const INSTANT: Timing := Timing(PredicateInputs(false, false, false, false, false), 2, 1, (i, r, p) => 1)

  datatype Atomic = Retired(next: Settled) | Finished(last: Settled) | Blocked | Stops(reason: nat)

  /** One instruction of the atomic machine, with all its effects. */
  function AtomicStep(c: Config, l: Settled): Atomic
    requires c.Valid() && l.Live?
  {
    if !c.InRange(l.core.pc) then Stops(2)
    else
      match Decide(c, INSTANT, Still(l), c.program[l.core.pc])
      case Next(m) => if m.core.retired == l.core.retired then Blocked else Retired(Flush(c, m))
      case Done(m) => Finished(Flush(c, m))
      case Trap(reason, m) => Stops(reason)
  }

  // ---------------------------------------------------------------- Assumptions

  /** Kernels write back their destination register only. */
  ghost predicate KernelsWriteDst(c: Config) {
    forall i: Instruction, r, e, p :: i.cls == KERNEL && c.engine(i, r, e, p).Executed? ==>
      c.engine(i, r, e, p).writes.Keys <= {i.dst}
  }

  /** The program tests comparison flags only, not the live status predicates. */
  ghost predicate FlagsOnly(c: Config)
    requires c.Valid()
  {
    forall pc :: c.InRange(pc) ==> c.program[pc].predicate_ <= 6
  }

  ghost predicate Timeless(c: Config) { c.Valid() && KernelsWriteDst(c) && FlagsOnly(c) }

  // ---------------------------------------------------------------- The invariant

  predicate Faulty(m: Machine) { m.kernel.fault.Some? || m.transportFault.Some? }

  function Pending(m: Machine): seq<Command> { if m.transport.Some? then m.transport.value.pending else [] }

  /** At most one operation is in flight, and the scoreboard knows its register. */
  predicate Tidy(m: Machine) {
    && (m.transport.Some? ==> m.transport.value.completed == [])
    && |Pending(m)| <= 1
    && (Pending(m) == [] ==> m.transportDst == {})
    && (Pending(m) != [] ==>
          && m.prims.Some? && Pending(m)[0].cycles >= 1 && m.transportDst == {Pending(m)[0].destination}
          && m.kernel == NO_KERNEL)
    && (m.kernel.pendingDst.None? ==> m.kernel == NO_KERNEL)
    && (m.kernel.pendingDst.Some? ==>
          && m.kernel.fault.None? && m.kernel.pendingFault.None? && m.kernel.cycles >= 1
          && m.kernel.result.Some? && m.kernel.result.value.Keys <= {m.kernel.pendingDst.value})
  }

  predicate Sound(m: Machine) { Faulty(m) || Tidy(m) }

  predicate Quiet(m: Machine) { m.kernel.pendingDst.None? && Pending(m) == [] }

  /** Nothing is in flight and nothing has failed. */
  predicate AtRest(m: Machine) { Tidy(m) && Quiet(m) && !Faulty(m) }

  lemma NoWrites(core: Core)
    ensures Written(core, map[]) == core
  {
    assert ApplyWrites(core.registers, map[]) == core.registers;
  }

  /** With nothing in flight, flushing only forgets the watchdog. */
  lemma FlushQuiet(c: Config, m: Machine)
    requires AtRest(m)
    ensures Flush(c, m) == Live(m.core, m.prims, m.transport)
    ensures Still(Flush(c, m)) == m.(watchdog := 0)
  {
    NoWrites(m.core);
  }

  // ---------------------------------------------------------------- Ticks

  lemma TickQuietTransport(c: Config, m: Machine)
    requires Pending(m) == [] && (m.transport.Some? ==> m.transport.value.completed == [])
    ensures TickTransport(c, m) == m
  {
    if m.transport.Some? && m.prims.Some? {
      TickOne(c.settings, m.transport.value, m.prims.value, c.entry);
      assert Drain(m, m.transport.value) == m;
    }
  }

  lemma KernelTick(c: Config, m: Machine)
    requires Tidy(m) && !Faulty(m) && m.kernel.pendingDst.Some?
    ensures Sound(Ticks(c, m)) && Flush(c, Ticks(c, m)) == Flush(c, m) && Ticks(c, m).core.retired == m.core.retired
    ensures Ticks(c, m).core.pc == m.core.pc && Ticks(c, m).watchdog == m.watchdog
  {
    var m' := TickKernel(m);
    TickQuietTransport(c, m');
    if m.kernel.cycles == 1 {
      NoWrites(m'.core);
    }
  }

  /** Completion ignores how long the command took. */
  lemma CompleteIgnoresCycles(c: Config, t: Transport, p: Prims)
    requires |t.pending| == 1 && t.pending[0].cycles == 1 && t.completed == []
    ensures var done := Complete(c.settings, t.(pending := CountDown(t.pending)), p, c.entry, CountDown(t.pending)[0]);
      var command := t.pending[0];
      && LandCommand(c, t, p, command) ==
         (if done.fault.Some? then Crash
          else Landing(map[command.destination := command.count], Some(done.prims),
            Some(done.transport.(completed := []))))
      && (done.fault.None? ==>
            done.transport.pending == [] && done.transport.completed == [(command.destination, command.count)])
  {
    var command := t.pending[0].(cycles := 0);
    assert CountDown(t.pending) == [command];
    assert Remove([command], command) == [];
  }

  lemma DrainOne(m: Machine, t: Transport, register: nat, value: int)
    requires t.completed == [(register, value)]
    ensures Drain(m, t) == m.(core := Written(m.core, map[register := value]),
      transportDst := m.transportDst - {register},
                              transport := Some(t.(completed := [])))
  {
    var m' := m.(core := m.core.(registers := SetReg(m.core.registers, register, value)),
                 transportDst := m.transportDst - {register});
    assert SetReg(m.core.registers, register, value) == ApplyWrites(m.core.registers, map[register := value]);
    assert t.completed[1..] == [];
    assert Drain(m', t.(completed := [])) == m'.(transport := Some(t.(completed := [])));
  }

  lemma CommandTick(c: Config, m: Machine)
    requires Tidy(m) && !Faulty(m) && Pending(m) != []
    ensures Sound(Ticks(c, m)) && Flush(c, Ticks(c, m)) == Flush(c, m) && Ticks(c, m).core.retired == m.core.retired
    ensures Ticks(c, m).core.pc == m.core.pc && Ticks(c, m).watchdog == m.watchdog
  {
    hide Complete;
    var t, p := m.transport.value, m.prims.value;
    var command := t.pending[0];
    TickOne(c.settings, t, p, c.entry);
    assert TickKernel(m) == m;
    if command.cycles == 1 {
      CompleteIgnoresCycles(c, t, p);
      var done := Complete(c.settings, t.(pending := CountDown(t.pending)), p, c.entry, CountDown(t.pending)[0]);
      if done.fault.None? {
        DrainOne(m.(prims := Some(done.prims)), done.transport, command.destination, command.count);
        NoWrites(Written(m.core, map[command.destination := command.count]));
      }
    } else {
      var t' := t.(pending := CountDown(t.pending));
      assert Drain(m, t') == m.(transport := Some(t'));
      assert t'.pending[0].(cycles := 0) == command.(cycles := 0);
      assert t'.(pending := [command.(cycles := 0)]) == t.(pending := [command.(cycles := 0)]);
    }
  }

  lemma FaultyTicks(c: Config, m: Machine)
    requires Faulty(m)
    ensures Faulty(Ticks(c, m))
  {
    hide Tick;
    var m' := TickKernel(m);
    if m'.transport.Some? && m'.prims.Some? {
      var done := Tick(c.settings, m'.transport.value, m'.prims.value, c.entry);
      DrainFaults(m'.(prims := Some(done.prims)), done.transport);
    }
  }

  lemma {:induction false} DrainFaults(m: Machine, t: Transport)
    ensures Drain(m, t).kernel == m.kernel && Drain(m, t).transportFault == m.transportFault
    decreases |t.completed|
  {
    if t.completed == [] {
    } else {
      var (register, value) := t.completed[0];
      DrainFaults(m.(core := m.core.(registers := SetReg(m.core.registers, register, value)),
                     transportDst := m.transportDst - {register}),
                  t.(completed := t.completed[1..]));
    }
  }

  /** A clock moves operations towards landing and changes nothing else. */
  lemma TicksKeepFlush(c: Config, m: Machine)
    requires Sound(m)
    ensures Sound(Ticks(c, m)) && Flush(c, Ticks(c, m)) == Flush(c, m)
    ensures !Faulty(m) ==> Ticks(c, m).core.retired == m.core.retired && Ticks(c, m).core.pc == m.core.pc
  {
    hide Ticks, LandCommand;
    if Faulty(m) {
      FaultyTicks(c, m);
    } else if m.kernel.pendingDst.Some? {
      KernelTick(c, m);
    } else if Pending(m) != [] {
      CommandTick(c, m);
    } else {
      QuietTicks(c, m);
    }
  }

  lemma QuietTicks(c: Config, m: Machine)
    requires Tidy(m) && Quiet(m)
    ensures Ticks(c, m) == m
  {
    TickQuietTransport(c, m);
  }

  lemma {:induction false} QuietCycles(c: Config, w: Timing, m: Machine, n: nat)
    requires AtRest(m)
    ensures match Cycles(c, w, m, n)
      case Next(m') => m' == m.(watchdog := m'.watchdog)
      case Done(m') => false
      case Trap(reason, m') => reason == 7
    decreases n
  {
    hide Ticks;
    if n == 0 {
    } else {
      QuietTicks(c, m);
      var o := Cycle(c, w, m);
      if o.Next? {
        QuietCycles(c, w, o.m, n - 1);
      }
    }
  }

  // ---------------------------------------------------------------- Refinement

  /** What a step may do to a machine whose flushed state is `l`. */
  ghost predicate Refines(c: Config, l: Settled, o: Outcome)
    requires c.Valid() && l.Live?
  {
    match o
    case Next(m) =>
      && Sound(m)
      && (m.core.retired == l.core.retired ==>
            Flush(c, m) == l || (AtomicStep(c, l).Blocked? && Flush(c, m).Live? && AtomicStep(c, Flush(c, m)).Blocked?))
      && (m.core.retired != l.core.retired ==> AtomicStep(c, l) == Retired(Flush(c, m)))
    case Done(m) => AtRest(m) && AtomicStep(c, l) == Finished(Flush(c, m))
    case Trap(reason, m) => reason == 7 || AtomicStep(c, l) == Stops(reason)
  }

  lemma StallRefines(c: Config, w: Timing, m: Machine)
    requires c.Valid() && Sound(m) && Flush(c, m).Live?
    ensures Refines(c, Flush(c, m), Stall(w, m))
  {
    hide AtomicStep, LandCommand;
  }

  // An operation is in flight: only CONTROL and SCALAR instructions proceed.

  lemma ControlCommutes(e: Entry, core: Core, i: Instruction, d: nat, writes: map<nat, int>, ready: bool)
    requires i.cls == CONTROL && !UsesPending(i, d) && writes.Keys <= {d}
    ensures ControlStep(e, Written(core, writes), i, true, ready) ==
      match ControlStep(e, core, i, true, ready)
      case Goto(pc, core') => Goto(pc, Written(core', writes))
      case other => other
  {
    assert i.src0 != d ==> Reg(Written(core, writes).registers, i.src0) == Reg(core.registers, i.src0);
  }

  lemma ScalarCommutes(core: Core, i: Instruction, d: nat, writes: map<nat, int>)
    requires i.cls == SCALAR && !UsesPending(i, d) && writes.Keys <= {d}
    ensures ScalarStep(Written(core, writes), i) == Written(ScalarStep(core, i), writes)
  {
    hide BitAnd, BitOr, BitXor, Pow2, Saturate;
    var after := Written(core, writes);
    assert i.src0 != d ==> Reg(after.registers, i.src0) == Reg(core.registers, i.src0);
    assert i.src1 != d ==> Reg(after.registers, i.src1) == Reg(core.registers, i.src1);
    var a, b := Reg(core.registers, i.src0), Reg(core.registers, i.src1);
    if i.opcode != CMP {
      assert Alu(i, Reg(after.registers, i.src0), Reg(after.registers, i.src1)) == Alu(i, a, b);
      assert SetReg(after.registers, i.dst, Alu(i, a, b))
        == ApplyWrites(SetReg(core.registers, i.dst, Alu(i, a, b)), writes);
    }
  }

  /** The register the single operation in flight will write. */
  function InFlight(m: Machine): nat
    requires Tidy(m) && !Quiet(m)
  {
    if m.kernel.pendingDst.Some? then m.kernel.pendingDst.value else Pending(m)[0].destination
  }

  lemma OneRegister(m: Machine)
    requires Tidy(m) && !Quiet(m)
    ensures PendingRegisters(m) == {InFlight(m)}
  {
  }

  lemma LandsOneRegister(c: Config, m: Machine)
    requires Tidy(m) && !Quiet(m) && Land(c, m).Landing?
    ensures Land(c, m).writes.Keys <= {InFlight(m)}
  {
    hide Complete;
  }

  /** Replacing the core does not disturb what is in flight. */
  lemma SameFlight(c: Config, m: Machine, core: Core, watchdog: int)
    requires Tidy(m)
    ensures var m' := m.(core := core, watchdog := watchdog);
      Tidy(m') && Land(c, m') == Land(c, m)
  {
    hide LandCommand;
  }

  /** What a step does while an operation is in flight: it waits, traps, or moves
      the core alone. */
  ghost predicate CoreOnly(m: Machine, o: Outcome) {
    match o
    case Next(m') =>
      m' == m.(core := m'.core, watchdog := m'.watchdog) && (m'.core.retired == m.core.retired ==> m'.core == m.core)
    case Done(m') => false
    case Trap(reason, m') => true
  }

  lemma ControlKeepsRetired(e: Entry, core: Core, i: Instruction, drained: bool, ready: bool)
    ensures var effect := ControlStep(e, core, i, drained, ready);
      (effect.Goto? ==> effect.core.retired == core.retired) && (effect.Finish? ==> i.opcode == END)
  {
  }

  lemma ScalarKeepsRetired(core: Core, i: Instruction)
    ensures ScalarStep(core, i).retired == core.retired
  {
    hide Alu;
  }

  lemma ExecuteMovesCore(c: Config, w: Timing, m: Machine, i: Instruction)
    requires i.cls == SCALAR || (i.cls == CONTROL && i.opcode != END)
    ensures CoreOnly(m, Execute(c, w, m, i))
  {
    hide ControlStep, ScalarStep, WaitReady;
    ScalarKeepsRetired(m.core, i);
    ControlKeepsRetired(c.entry, m.core, i, m.transport.None? || m.transport.value.pending == [],
      WaitReady(i, m.prims, m.transport));
  }

  lemma BusyMovesCore(c: Config, w: Timing, m: Machine, i: Instruction)
    requires Tidy(m) && !Quiet(m) && !Faulty(m) && i.predicate_ <= 6
    ensures CoreOnly(m, Decide(c, w, m, i))
  {
    hide ValidInstruction, Execute;
    OneRegister(m);
    var d := InFlight(m);
    if UsesPending(i, d) {
      assert d in PendingRegisters(m);
      assert PendingDependency(m, i);
    } else {
      ExecuteMovesCore(c, w, m, i);
    }
  }

  /** A source that is ready while something is in flight is ready once it landed. */
  lemma ReadyPersists(c: Config, m: Machine, i: Instruction)
    requires Tidy(m) && !Quiet(m) && Land(c, m).Landing? && WaitReady(i, m.prims, m.transport)
    ensures WaitReady(i, Land(c, m).prims, Land(c, m).transport)
  {
    if Pending(m) != [] {
      var t, p, command := m.transport.value, m.prims.value, Pending(m)[0];
      PushOnly(p.input, RefillWords(command.payload, t.inputCursor, |c.settings.inputData|));
    }
  }

  lemma {:induction false} PushOnly(input: Reservoir, words: seq<nat>)
    ensures |PushAll(input, words).0.words| >= |input.words|
    ensures PushAll(input, words).0.bits == input.bits
    decreases |words|
  {
    if words != [] && CanPush(input.words, words[0]) {
      PushOnly(Push(input, words[0]), words[1..]);
    }
  }

  /** The same instruction on the flushed state. */
  ghost predicate Mirrors(c: Config, m: Machine, i: Instruction, o: Outcome)
    requires Land(c, m).Landing?
  {
    var still := Still(Flush(c, m));
    match o
    case Next(m') =>
      m'.core.retired == m.core.retired ||
      Execute(c, INSTANT, still, i) == Next(still.(core := Written(m'.core, Land(c, m).writes)))
    case Done(m') => false
    case Trap(reason, m') =>
      reason == 7 || (Execute(c, INSTANT, still, i).Trap? && Execute(c, INSTANT, still, i).reason == reason)
  }

  lemma BusyScalarMirrors(c: Config, w: Timing, m: Machine, i: Instruction)
    requires Tidy(m) && !Quiet(m) && !Faulty(m) && Land(c, m).Landing?
    requires i.cls == SCALAR && !UsesPending(i, InFlight(m))
    ensures Mirrors(c, m, i, Execute(c, w, m, i))
  {
    hide LandCommand, ScalarStep;
    LandsOneRegister(c, m);
    ScalarCommutes(m.core, i, InFlight(m), Land(c, m).writes);
  }

  lemma BusyControlMirrors(c: Config, w: Timing, m: Machine, i: Instruction)
    requires Tidy(m) && !Quiet(m) && !Faulty(m) && Land(c, m).Landing?
    requires i.cls == CONTROL && !UsesPending(i, InFlight(m))
    ensures Mirrors(c, m, i, Execute(c, w, m, i))
  {
    hide LandCommand, WaitReady, ControlStep;
    var landing := Land(c, m);
    LandsOneRegister(c, m);
    var drained := m.transport.None? || m.transport.value.pending == [];
    var ready := WaitReady(i, m.prims, m.transport);
    EndOnlyNeedsDrain(c.entry, m.core, i, drained, ready);
    EndOnlyNeedsDrain(c.entry, Written(m.core, landing.writes), i,
      landing.transport.None? || landing.transport.value.pending == [], WaitReady(i, landing.prims, landing.transport));
    if ready {
      ReadyPersists(c, m, i);
    } else {
      ReadyOnlyForWait(c.entry, Written(m.core, landing.writes), i, WaitReady(i, landing.prims, landing.transport));
    }
    ControlCommutes(c.entry, m.core, i, InFlight(m), landing.writes, ready);
  }

  lemma EndOnlyNeedsDrain(e: Entry, core: Core, i: Instruction, drained: bool, ready: bool)
    requires i.opcode != END
    ensures ControlStep(e, core, i, drained, ready) == ControlStep(e, core, i, true, ready)
    ensures !ControlStep(e, core, i, drained, ready).Finish?
  {
  }

  lemma ReadyOnlyForWait(e: Entry, core: Core, i: Instruction, ready: bool)
    requires i.cls == CONTROL
    ensures i.opcode != WAIT ==> ControlStep(e, core, i, true, ready) == ControlStep(e, core, i, true, false)
    ensures i.opcode == WAIT ==> ControlStep(e, core, i, true, false) == NotReady
  {
  }

  lemma BusyRefines(c: Config, w: Timing, m: Machine, i: Instruction)
    requires Timeless(c) && Tidy(m) && !Quiet(m) && !Faulty(m) && Land(c, m).Landing?
    requires c.InRange(m.core.pc) && i == c.program[m.core.pc]
    ensures Refines(c, Flush(c, m), Decide(c, w, m, i))
  {
    hide LandCommand, Execute, ValidInstruction;
    var l := Flush(c, m);
    var still := Still(l);
    var o := Decide(c, w, m, i);
    OneRegister(m);
    assert InFlight(m) in PendingRegisters(m);
    BusyMovesCore(c, w, m, i);
    assert PendingRegisters(still) == {};
    assert PredicateHolds(c, w, m, i.predicate_) == PredicateHolds(c, INSTANT, still, i.predicate_);
    if o.Next? {
      SameFlight(c, m, o.m.core, o.m.watchdog);
    }
    if !ValidInstruction(i, c.target, c.abi) || m.core.retired >= c.entry.maxRetired {
    } else if !PredicateHolds(c, w, m, i.predicate_) {
      if o.Next? {
        assert Decide(c, INSTANT, still, i).m == still.(core := Written(o.m.core, Land(c, m).writes));
        BusyLands(c, m, o.m, l);
      }
    } else if UsesPending(i, InFlight(m)) {
      assert PendingDependency(m, i);
      StallRefines(c, w, m);
    } else {
      assert !PendingDependency(m, i) && !PendingDependency(still, i);
      if i.cls == CONTROL {
        BusyControlMirrors(c, w, m, i);
      } else {
        BusyScalarMirrors(c, w, m, i);
      }
      if o.Next? && o.m.core.retired != m.core.retired {
        BusyLands(c, m, o.m, l);
      }
    }
  }

  /** The flushed successor is the atomic successor with nothing in flight. */
  lemma BusyLands(c: Config, m: Machine, m': Machine, l: Settled)
    requires Tidy(m) && !Faulty(m) && Land(c, m).Landing? && Land(c, m') == Land(c, m) && l == Flush(c, m)
    ensures Flush(c, Still(l).(core := Written(m'.core, Land(c, m).writes))) == Flush(c, m')
  {
    hide LandCommand;
    NoWrites(Written(m'.core, Land(c, m).writes));
    LandedIsQuiet(c, m);
  }

  lemma LandedIsQuiet(c: Config, m: Machine)
    requires Tidy(m) && !Faulty(m) && Land(c, m).Landing?
    ensures Land(c, m).transport.Some? ==>
      Land(c, m).transport.value.pending == [] && Land(c, m).transport.value.completed == []
  {
    if Pending(m) != [] {
      var command := Pending(m)[0].(cycles := 0);
      assert Remove([command], command) == [];
    }
  }

  // Nothing is in flight: the machine and the atomic machine are in the same state.

  /** `m` and `n` differ in their watchdogs only and nothing is in flight. */
  ghost predicate Twin(m: Machine, n: Machine) {
    AtRest(m) && n == m.(watchdog := 0)
  }

  /** Two outcomes of one instruction under two timings. */
  ghost predicate SameEffect(c: Config, m: Machine, o: Outcome, a: Outcome) {
    match o
    case Next(m') =>
      && Sound(m') && a.Next? && a.m.core.retired == m'.core.retired
      && (m'.core.retired != m.core.retired ==> Flush(c, m') == Flush(c, a.m))
      && (m'.core.retired == m.core.retired ==> m' == m.(watchdog := m'.watchdog))
    case Done(m') => a.Done? && Flush(c, m') == Flush(c, a.m) && AtRest(m')
    case Trap(reason, m') => reason == 7 || (a.Trap? && a.reason == reason)
  }

  function Moved(l: Settled, retired: nat, pc: int): Settled {
    if l.Doomed? then l else l.(core := l.core.(retired := retired, pc := pc))
  }

  lemma FlushMoved(c: Config, m: Machine, retired: nat, pc: int, watchdog: int)
    ensures Flush(c, m.(core := m.core.(retired := retired, pc := pc), watchdog := watchdog))
      == Moved(Flush(c, m), retired, pc)
    ensures Sound(m) ==> Sound(m.(core := m.core.(retired := retired, pc := pc), watchdog := watchdog))
  {
    hide LandCommand;
  }

  lemma AdvanceSame(c: Config, start: Machine, m: Machine, n: Machine, pc: int)
    requires Sound(m) && Flush(c, m) == Flush(c, n) && m.core.retired == n.core.retired == start.core.retired
    ensures SameEffect(c, start, Advance(c, m, pc), Advance(c, n, pc))
  {
    hide Flush, Sound;
    FlushMoved(c, m, m.core.retired + 1, pc, 0);
    FlushMoved(c, n, n.core.retired + 1, pc, 0);
  }

  lemma QuietSame(c: Config, start: Machine, m: Machine, n: Machine, pc: int)
    requires Twin(m, n) && m.core.retired == start.core.retired
    ensures SameEffect(c, start, Advance(c, m, pc), Advance(c, n, pc))
  {
    hide LandCommand, Advance;
    AdvanceSame(c, start, m, n, pc);
  }

  lemma QuietControl(c: Config, w: Timing, m: Machine, n: Machine, i: Instruction)
    requires Twin(m, n) && i.cls == CONTROL
    ensures SameEffect(c, m, Execute(c, w, m, i), Execute(c, INSTANT, n, i))
  {
    hide LandCommand, Advance, WaitReady;
    var drained := m.transport.None? || m.transport.value.pending == [];
    var effect := ControlStep(c.entry, m.core, i, drained, WaitReady(i, m.prims, m.transport));
    if effect.Goto? {
      assert effect.core.retired == m.core.retired;
      QuietSame(c, m, m.(core := effect.core), n.(core := effect.core), effect.pc);
    } else if effect.Finish? {
      FlushQuiet(c, Retire(m));
    }
  }

  lemma QuietScalar(c: Config, w: Timing, m: Machine, n: Machine, i: Instruction)
    requires Twin(m, n) && i.cls == SCALAR
    ensures SameEffect(c, m, Execute(c, w, m, i), Execute(c, INSTANT, n, i))
  {
    hide LandCommand, Advance, Alu;
    QuietSame(c, m, m.(core := ScalarStep(m.core, i)), n.(core := ScalarStep(m.core, i)), m.core.pc + 1);
  }

  /** The latency shows up in the command alone. */
  lemma IssueLatency(s: Settings, t: Transport, latency: int, i: Instruction, r: Registers, e: Entry, p: Prims)
    requires t.pending == []
    ensures match IssueCommand(s, t, latency, i, r, e, p)
      case Busy => IssueCommand(s, t, 1, i, r, e, p) == Busy
      case Refused(fault) => IssueCommand(s, t, 1, i, r, e, p) == Refused(fault)
      case Accepted(t') =>
        && IssueCommand(s, t, 1, i, r, e, p).Accepted?
        && var u := IssueCommand(s, t, 1, i, r, e, p).transport;
           && t'.(pending := []) == u.(pending := [])
           && (i.opcode <= OUTPUT_STREAM ==>
                 && |t'.pending| == |u.pending| == 1 && t'.completed == t.completed
                 && t'.pending[0].(cycles := 0) == u.pending[0].(cycles := 0)
                 && t'.pending[0].cycles >= 1 && t'.pending[0].destination == i.dst)
           && (i.opcode > OUTPUT_STREAM ==> t'.pending == u.pending == [] && t'.completed == t.completed + [(i.dst, 0)])
  {
    hide BitOr, BitAnd, Read;
  }

  lemma QuietTransport(c: Config, w: Timing, m: Machine, n: Machine, i: Instruction)
    requires Twin(m, n) && i.cls == TRANSPORT
    ensures SameEffect(c, m, TransportStep(c, w, m, i), TransportStep(c, INSTANT, n, i))
  {
    hide Advance, IssueCommand, TickTransport, Complete;
    if m.transport.Some? && m.prims.Some? {
      var t, p := m.transport.value, m.prims.value;
      IssueLatency(c.settings, t, w.latency, i, m.core.registers, c.entry, p);
      var issue := IssueCommand(c.settings, t, w.latency, i, m.core.registers, c.entry, p);
      var instant := IssueCommand(c.settings, t, 1, i, m.core.registers, c.entry, p);
      if issue.Accepted? {
        var issued, issuedNow := m.(transport := Some(issue.transport)), n.(transport := Some(instant.transport));
        if i.opcode <= OUTPUT_STREAM {
          assert issue.transport.(pending := [issue.transport.pending[0].(cycles := 0)])
              == instant.transport.(pending := [instant.transport.pending[0].(cycles := 0)]);
          AdvanceSame(c, m, issued.(transportDst := issued.transportDst + {i.dst}),
            issuedNow.(transportDst := issuedNow.transportDst + {i.dst}), m.core.pc + 1);
        } else {
          assert instant.transport == issue.transport;
          JobTick(c, issued, i.dst);
          JobTick(c, issuedNow, i.dst);
          QuietSame(c, m, TickTransport(c, issued), TickTransport(c, issuedNow), m.core.pc + 1);
        }
      }
    }
  }

  lemma JobTick(c: Config, m: Machine, dst: nat)
    requires m.transport.Some? && m.prims.Some? && m.transport.value.pending == []
      && m.transport.value.completed == [(dst, 0)]
    ensures TickTransport(c, m) == m.(core := Written(m.core, map[dst := 0]), transportDst := m.transportDst - {dst},
                                      transport := Some(m.transport.value.(completed := [])))
  {
    TickOne(c.settings, m.transport.value, m.prims.value, c.entry);
    DrainOne(m, m.transport.value, dst, 0);
  }

  /** An instruction that starves leaves the reservoir refilled and starves again. */
  lemma StarvedTwice(i: Instruction, r: Registers, p: Prims)
    ensures Buffered(i, r, Buffered(i, r, p)) == Buffered(i, r, p)
  {
    RefillTwice(p.input, RequiredBits(i, r));
  }

  /** Issuing a kernel and landing it, at once or later. */
  lemma KernelSame(c: Config, m: Machine, n: Machine, p: Prims, writes: map<nat, int>, dst: nat, idle: nat, pc: int)
    requires Twin(m, n) && m.prims.Some? && writes.Keys <= {dst}
    ensures var issued := m.(prims := Some(p),
      kernel := m.kernel.(result := Some(writes), pendingDst := Some(dst), cycles := idle));
      var instant := n.(prims := Some(p),
        kernel := n.kernel.(result := Some(writes), pendingDst := Some(dst), cycles := 0));
      SameEffect(c, m, Advance(c, if idle == 0 then CompleteKernel(issued) else issued, pc),
        Advance(c, CompleteKernel(instant), pc))
  {
    hide Advance, LandCommand;
    var issued := m.(prims := Some(p),
      kernel := m.kernel.(result := Some(writes), pendingDst := Some(dst), cycles := idle));
    var instant := n.(prims := Some(p),
      kernel := n.kernel.(result := Some(writes), pendingDst := Some(dst), cycles := 0));
    var landed := CompleteKernel(instant);
    FlushQuiet(c, landed);
    if idle == 0 {
      FlushQuiet(c, CompleteKernel(issued));
      AdvanceSame(c, m, CompleteKernel(issued), landed, pc);
    } else {
      AdvanceSame(c, m, issued, landed, pc);
    }
  }

  lemma QuietPrimitive(c: Config, w: Timing, m: Machine, n: Machine, i: Instruction)
    requires KernelsWriteDst(c) && Twin(m, n) && m.prims.Some? && !FifoBlocked(i, m.prims.value)
    requires !Starved(i, m.core.registers, Buffered(i, m.core.registers, m.prims.value))
    ensures SameEffect(c, m, PrimitiveStep(c, w, m, i), PrimitiveStep(c, INSTANT, n, i))
  {
    hide Advance, LandCommand, Buffered, Starved, FifoBlocked, ApplyWrites, Cycles;
    var p := Buffered(i, m.core.registers, m.prims.value);
    var idle := Max(w.cycles(i, m.core.registers, p) - 1, 0);
    match Invoke(c, m.core.registers, p, i)
    case Faulted(p', fault) =>
      if i.cls == KERNEL && fault.reason != 5 {
        var late := m.(prims := Some(p'.(kernelDone := false)),
                       kernel := m.kernel.(result := Some(map[]), pendingFault := Some(fault),
                         pendingDst := Some(i.dst), cycles := 0));
        AdvanceSame(c, m, CompleteKernel(late), CompleteKernel(late.(watchdog := 0)), m.core.pc + 1);
      }
    case Executed(p', writes) =>
      if i.cls == KERNEL {
        KernelSame(c, m, n, p'.(kernelDone := false), writes, i.dst, idle, m.core.pc + 1);
      } else {
        var written := m.(prims := Some(p'), core := m.core.(registers := ApplyWrites(m.core.registers, writes)));
        QuietCycles(c, w, written, idle);
        NoIdle(c, written.(watchdog := 0));
        var o := Cycles(c, w, written, idle);
        if o.Next? {
          QuietSame(c, m, o.m, written.(watchdog := 0), m.core.pc + 1);
        }
      }
  }

  lemma NoIdle(c: Config, m: Machine)
    ensures Cycles(c, INSTANT, m, 0) == Next(m)
  {
  }

  lemma QuietStarves(c: Config, w: Timing, m: Machine, i: Instruction)
    requires c.Valid() && AtRest(m) && c.InRange(m.core.pc) && i == c.program[m.core.pc]
    requires ValidInstruction(i, c.target, c.abi) && m.core.retired < c.entry.maxRetired && i.predicate_ <= 6
    requires FlagPredicate(m.core, i.predicate_) && i.cls > SCALAR && i.cls != TRANSPORT
    requires m.prims.Some? && !FifoBlocked(i, m.prims.value)
    requires Starved(i, m.core.registers, Buffered(i, m.core.registers, m.prims.value))
    ensures Refines(c, Flush(c, m), Stall(w, m.(prims := Some(Buffered(i, m.core.registers, m.prims.value)))))
  {
    hide LandCommand, Refill, ValidInstruction;
    var p := Buffered(i, m.core.registers, m.prims.value);
    var m' := m.(prims := Some(p));
    FlushQuiet(c, m);
    FlushQuiet(c, m');
    FlushQuiet(c, m'.(watchdog := m.watchdog + 1));
    StarvedTwice(i, m.core.registers, m.prims.value);
    StarvesAtomically(c, Flush(c, m), i);
    assert !FifoBlocked(i, p) by { assert i.cls == LOCAL ==> RequiredBits(i, m.core.registers) == 0; }
    StarvesAtomically(c, Flush(c, m'), i);
  }

  lemma StarvesAtomically(c: Config, l: Settled, i: Instruction)
    requires c.Valid() && l.Live? && c.InRange(l.core.pc) && i == c.program[l.core.pc]
    requires ValidInstruction(i, c.target, c.abi) && l.core.retired < c.entry.maxRetired && i.predicate_ <= 6
    requires FlagPredicate(l.core, i.predicate_) && i.cls > SCALAR && i.cls != TRANSPORT
    requires l.prims.Some? && !FifoBlocked(i, l.prims.value)
    requires Starved(i, l.core.registers, Buffered(i, l.core.registers, l.prims.value))
    ensures AtomicStep(c, l) == Blocked
  {
    hide Refill, ValidInstruction, FifoBlocked, Starved, Buffered;
    assert PendingRegisters(Still(l)) == {};
  }

  lemma QuietExecute(c: Config, w: Timing, m: Machine, n: Machine, i: Instruction)
    requires KernelsWriteDst(c) && Twin(m, n)
    requires i.cls > SCALAR && i.cls != TRANSPORT && m.prims.Some? ==>
      !FifoBlocked(i, m.prims.value) && !Starved(i, m.core.registers, Buffered(i, m.core.registers, m.prims.value))
    ensures SameEffect(c, m, Execute(c, w, m, i), Execute(c, INSTANT, n, i))
  {
    hide TransportStep, LandCommand, Advance, ControlStep, ScalarStep, WaitReady, Buffered, Starved, FifoBlocked,
      SameEffect;
    if i.cls == CONTROL {
      QuietControl(c, w, m, n, i);
    } else if i.cls == SCALAR {
      QuietScalar(c, w, m, n, i);
    } else if i.cls == TRANSPORT {
      QuietTransport(c, w, m, n, i);
    } else if m.prims.Some? {
      QuietPrimitive(c, w, m, n, i);
    } else {
      assert SameEffect(c, m, Trap(6, m), Trap(6, n)) by { TrapSame(c, m, n, 6); }
    }
  }

  lemma TrapSame(c: Config, m: Machine, n: Machine, reason: nat)
    ensures SameEffect(c, m, Trap(reason, m), Trap(reason, n))
  {
  }

  lemma SameRefines(c: Config, w: Timing, m: Machine, i: Instruction)
    requires c.Valid() && AtRest(m) && c.InRange(m.core.pc) && i == c.program[m.core.pc]
    requires SameEffect(c, m, Decide(c, w, m, i), Decide(c, INSTANT, m.(watchdog := 0), i))
    ensures Refines(c, Flush(c, m), Decide(c, w, m, i))
  {
    hide Decide, LandCommand;
    FlushQuiet(c, m);
  }

  lemma QuietRefines(c: Config, w: Timing, m: Machine, i: Instruction)
    requires Timeless(c) && AtRest(m) && c.InRange(m.core.pc) && i == c.program[m.core.pc]
    ensures Refines(c, Flush(c, m), Decide(c, w, m, i))
  {
    hide LandCommand, ValidInstruction, Buffered, Starved, FifoBlocked, Refines, Flush;
    var n := m.(watchdog := 0);
    assert PendingRegisters(m) == {} && PendingRegisters(n) == {};
    assert !PendingDependency(m, i) && !PendingDependency(n, i);
    var primitive := i.cls > SCALAR && i.cls != TRANSPORT && m.prims.Some?;
    FlushQuiet(c, m);
    if !ValidInstruction(i, c.target, c.abi) || m.core.retired >= c.entry.maxRetired {
      SameRefines(c, w, m, i);
    } else if !FlagPredicate(m.core, i.predicate_) {
      FlushMoved(c, m, m.core.retired + 1, m.core.pc + 1, 0);
      FlushMoved(c, n, m.core.retired + 1, m.core.pc + 1, 0);
      FlushQuiet(c, n);
      SameRefines(c, w, m, i);
    } else if primitive && FifoBlocked(i, m.prims.value) {
      StallRefines(c, w, m);
    } else if primitive && Starved(i, m.core.registers, Buffered(i, m.core.registers, m.prims.value)) {
      QuietStarves(c, w, m, i);
    } else {
      QuietExecute(c, w, m, n, i);
      SameRefines(c, w, m, i);
    }
  }

  // ---------------------------------------------------------------- One event

  /** One event refines the atomic machine: a retirement is one atomic step and
      anything else leaves the flushed state alone. */
  lemma EventRefines(c: Config, w: Timing, m: Machine, event: Event)
    requires Timeless(c) && Sound(m) && Flush(c, m).Live?
    ensures Refines(c, Flush(c, m), Happen(c, w, m, event))
  {
    hide LandCommand, Ticks, Decide, Refines, AtomicStep;
    TicksKeepFlush(c, m);
    var m1 := Ticks(c, m);
    match event
    case CycleEvent => StallRefines(c, w, m1);
    case StepEvent =>
      if c.InRange(m.core.pc) {
        if Quiet(m1) {
          QuietRefines(c, w, m1, c.program[m.core.pc]);
        } else {
          BusyRefines(c, w, m1, c.program[m.core.pc]);
        }
      } else {
        OutOfRange(c, m);
      }
  }

  lemma OutOfRange(c: Config, m: Machine)
    requires c.Valid() && Flush(c, m).Live? && !c.InRange(m.core.pc)
    ensures Refines(c, Flush(c, m), Trap(2, m))
  {
    hide LandCommand;
  }

  /** A doomed machine can only wait, move its core, or trap; it never finishes. */
  lemma EventKeepsDoom(c: Config, w: Timing, m: Machine, event: Event)
    requires Timeless(c) && Sound(m) && Flush(c, m).Doomed?
    ensures match Happen(c, w, m, event)
      case Next(m') => Sound(m') && Flush(c, m').Doomed?
      case Done(m') => false
      case Trap(reason, m') => true
  {
    hide LandCommand, Ticks, ValidInstruction, Execute;
    TicksKeepFlush(c, m);
    var m1 := Ticks(c, m);
    if Faulty(m) {
      FaultyTicks(c, m);
    } else if event.StepEvent? && c.InRange(m.core.pc) && !Faulty(m1) {
      var o := Decide(c, w, m1, c.program[m.core.pc]);
      BusyMovesCore(c, w, m1, c.program[m.core.pc]);
      if o.Next? {
        SameFlight(c, m1, o.m.core, o.m.watchdog);
      }
    }
  }

  // ---------------------------------------------------------------- Runs

  /** The atomic machine reaches `last` by finishing after some retirements. */
  function AtomicRun(c: Config, l: Settled, fuel: nat): Atomic
    requires c.Valid() && l.Live?
    decreases fuel
  {
    match AtomicStep(c, l)
    case Retired(next) => if fuel == 0 || next.Doomed? then Blocked else AtomicRun(c, next, fuel - 1)
    case other => other
  }

  lemma {:induction false} DoomNeverFinishes(c: Config, w: Timing, m: Machine, events: seq<Event>)
    requires Timeless(c) && Sound(m) && Flush(c, m).Doomed?
    ensures !Exec(c, w, m, events).Done?
    decreases |events|
  {
    hide Flush, Happen, Sound;
    if events == [] {
    } else {
      EventKeepsDoom(c, w, m, events[0]);
      var o := Happen(c, w, m, events[0]);
      if o.Next? {
        DoomNeverFinishes(c, w, o.m, events[1..]);
      }
    }
  }

  lemma {:induction false} BlockedNeverFinishes(c: Config, w: Timing, m: Machine, events: seq<Event>)
    requires Timeless(c) && Sound(m) && Flush(c, m).Live? && AtomicStep(c, Flush(c, m)).Blocked?
    ensures !Exec(c, w, m, events).Done?
    decreases |events|
  {
    hide Flush, Happen, Sound, AtomicStep;
    if events == [] {
    } else {
      EventRefines(c, w, m, events[0]);
      var o := Happen(c, w, m, events[0]);
      if o.Next? {
        BlockedNeverFinishes(c, w, o.m, events[1..]);
      }
    }
  }

  /** A run that finishes is a finishing run of the atomic machine. */
  lemma {:induction false} FinishIsAtomic(c: Config, w: Timing, m: Machine, events: seq<Event>) returns (fuel: nat)
    requires Timeless(c) && Sound(m) && Flush(c, m).Live?
    requires Exec(c, w, m, events).Done?
    ensures AtomicRun(c, Flush(c, m), fuel) == Finished(Flush(c, Exec(c, w, m, events).m))
    ensures AtRest(Exec(c, w, m, events).m)
    decreases |events|
  {
    hide Flush, Happen, Sound, AtomicStep;
    EventRefines(c, w, m, events[0]);
    var o := Happen(c, w, m, events[0]);
    if o.Done? {
      fuel := 0;
    } else {
      var l := Flush(c, m);
      var l' := Flush(c, o.m);
      if l'.Doomed? {
        DoomNeverFinishes(c, w, o.m, events[1..]);
        assert false;
      } else if l' == l {
        fuel := FinishIsAtomic(c, w, o.m, events[1..]);
      } else if AtomicStep(c, l') == Blocked {
        BlockedNeverFinishes(c, w, o.m, events[1..]);
        assert false;
      } else {
        fuel := FinishIsAtomic(c, w, o.m, events[1..]);
        fuel := fuel + 1;
      }
    }
  }

  /** Where the atomic machine finishes, every timed run is still going, has hit the
      watchdog, or has finished in the same state. */
  lemma {:induction false} AtomicIsFinish(c: Config, w: Timing, m: Machine, events: seq<Event>, fuel: nat,
    last: Settled)
    requires Timeless(c) && Sound(m) && Flush(c, m).Live? && AtomicRun(c, Flush(c, m), fuel) == Finished(last)
    ensures match Exec(c, w, m, events)
      case Next(m') => true
      case Done(m') => AtRest(m') && Flush(c, m') == last
      case Trap(reason, m') => reason == 7
    decreases |events|
  {
    hide Flush, Happen, Sound, AtomicStep;
    if events == [] {
    } else {
      EventRefines(c, w, m, events[0]);
      var o := Happen(c, w, m, events[0]);
      if o.Next? {
        var l, l' := Flush(c, m), Flush(c, o.m);
        if l' == l {
          AtomicIsFinish(c, w, o.m, events[1..], fuel, last);
        } else {
          AtomicIsFinish(c, w, o.m, events[1..], fuel - 1, last);
        }
      }
    }
  }

  /** Latency insensitivity: if a job finishes under one timing, then under every
      other choice of delays it is still running, has hit the no-retirement watchdog,
      or has finished with the same registers, flags, retirement count, memory, FIFOs,
      output and job results. */
  lemma TimingIsInvisible(
    c: Config, w: Timing, w': Timing, memory: Option<Memory>, transport: bool, events: seq<Event>, events': seq<Event>)
    requires Timeless(c) && Exec(c, w, Boot(c, memory, transport), events).Done?
    ensures var final := Exec(c, w, Boot(c, memory, transport), events).m;
      match Exec(c, w', Boot(c, memory, transport), events')
      case Next(m) => true
      case Done(m) => m.core == final.core && m.prims == final.prims && m.transport == final.transport
      case Trap(reason, m) => reason == 7
  {
    hide Exec, AtomicRun, AtomicStep, LandCommand;
    var m := Boot(c, memory, transport);
    FlushQuiet(c, m);
    var fuel := FinishIsAtomic(c, w, m, events);
    var final := Exec(c, w, m, events).m;
    AtomicIsFinish(c, w', m, events', fuel, Flush(c, final));
    FlushQuiet(c, final);
    var o := Exec(c, w', m, events');
    if o.Done? {
      FlushQuiet(c, o.m);
    }
  }
}

/** The machine never leaves the program range, never misuses its call stack and
    never runs a broken loop on a program the static verifier accepts. Proved by a
    simulation: every machine state abstracts to a state the verifier reached. */
module Soundness {
  import opened Common
  import opened Isa
  import opened Memory
  import opened Transport
  import opened Machine
  import CF = ControlFlow

  function View(c: Config): CF.Context { CF.Context(c.program, c.entry, c.target, c.abi) }

  function Abstract(core: Core): CF.State {
    CF.State(core.pc, core.stack, map slot | slot in core.loops :: core.loops[slot].1)
  }

  /** The primitive engine of the source reports faults with reason 5 or 9 only. */
  ghost predicate EngineReasons(c: Config) {
    forall i, r, e, p :: c.engine(i, r, e, p).Faulted? ==> c.engine(i, r, e, p).fault.reason in {5, 9}
  }

  ghost predicate Verified(c: Config) {
    c.Valid() && CF.Accepts(View(c)) && EngineReasons(c)
  }

  predicate FaultsKnown(m: Machine) {
    && (m.kernel.fault.Some? ==> m.kernel.fault.value.reason in {5, 9})
    && (m.kernel.pendingFault.Some? ==> m.kernel.pendingFault.value.reason in {5, 9})
    && (m.transportFault.Some? ==> m.transportFault.value.reason in {5, 9})
  }

  ghost predicate Simulated(c: Config, m: Machine)
    requires c.Valid()
  {
    CF.Reachable(View(c), Abstract(m.core)) && FaultsKnown(m)
  }

  /** The only loop trap left: a LOOP_SETUP whose run-time count is zero or over
      the entry's limit. */
  predicate CountRejected(c: Config, m: Machine)
    requires c.Valid()
  {
    && c.InRange(m.core.pc)
    && var i := c.program[m.core.pc];
       var count := Reg(m.core.registers, i.src0) % 0x1_0000;
       i.cls == CONTROL && i.opcode == LOOP_SETUP && (count == 0 || count > c.entry.maxLoopCount)
  }

  ghost predicate Safe(c: Config, o: Outcome)
    requires c.Valid()
  {
    match o
    case Next(m) => Simulated(c, m)
    case Done(m) => true
    case Trap(reason, m) => reason != 2 && reason != 3 && (reason == 4 ==> CountRejected(c, m))
  }

  // ---------------------------------------------------------------- Ticks

  lemma {:induction false} DrainKeeps(m: Machine, t: Transport)
    ensures Abstract(Drain(m, t).core) == Abstract(m.core)
    ensures FaultsKnown(m) ==> FaultsKnown(Drain(m, t))
    decreases |t.completed|
  {
    if t.completed == [] {
    } else {
      var (register, value) := t.completed[0];
      DrainKeeps(m.(core := m.core.(registers := SetReg(m.core.registers, register, value)),
                    transportDst := m.transportDst - {register}),
                 t.(completed := t.completed[1..]));
    }
  }

  lemma TransportTickKeeps(c: Config, m: Machine)
    requires FaultsKnown(m)
    ensures Abstract(TickTransport(c, m).core) == Abstract(m.core)
    ensures FaultsKnown(TickTransport(c, m))
  {
    hide Complete, Tick;
    if m.transport.Some? && m.prims.Some? {
      var done := Tick(c.settings, m.transport.value, m.prims.value, c.entry);
      TickReasons(c.settings, m.transport.value, m.prims.value, c.entry);
      DrainKeeps(m.(prims := Some(done.prims)), done.transport);
    }
  }

  lemma TickReasons(s: Settings, t: Transport, p: Prims, e: Entry)
    ensures Tick(s, t, p, e).fault.Some? ==> Tick(s, t, p, e).fault.value.reason in {5, 9}
  {
    var t' := t.(pending := CountDown(t.pending));
    CompleteAllReasons(s, t', p, e, Ready(t'.pending));
  }

  lemma TicksKeep(c: Config, m: Machine)
    requires FaultsKnown(m)
    ensures Abstract(Ticks(c, m).core) == Abstract(m.core)
    ensures FaultsKnown(Ticks(c, m))
  {
    hide TickTransport;
    TransportTickKeeps(c, TickKernel(m));
  }

  lemma {:induction false} CyclesKeep(c: Config, w: Timing, m: Machine, n: nat)
    requires FaultsKnown(m)
    ensures var o := Cycles(c, w, m, n);
      match o
      case Next(m') => Abstract(m'.core) == Abstract(m.core) && FaultsKnown(m')
      case Done(m') => false
      case Trap(reason, m') => reason == 7
    decreases n
  {
    hide Ticks;
    if n == 0 {
    } else {
      TicksKeep(c, m);
      var o := Cycle(c, w, m);
      if o.Next? {
        CyclesKeep(c, w, o.m, n - 1);
      }
    }
  }

  // ---------------------------------------------------------------- Control flow

  /** A reachable abstract state is in range and its successors are reachable. */
  lemma Follow(c: Config, s: CF.State, e: CF.Successor)
    requires Verified(c) && CF.Reachable(View(c), s)
    ensures CF.Explore(View(c), s).Visit? && c.InRange(s.pc)
    ensures e in CF.Explore(View(c), s).successors ==> CF.Reachable(View(c), e.state) && c.InRange(e.state.pc)
  {
    hide CF.Explore, CF.Reachable;
    CF.SafeInRange(View(c), s);
    if e in CF.Explore(View(c), s).successors {
      assert CF.Leads(View(c), s, e);
      CF.ReachableStep(View(c), s, e);
      CF.SafeInRange(View(c), e.state);
    }
  }

  /** Falling through to the next instruction is a move the verifier explored. */
  lemma FallThrough(c: Config, core: Core)
    requires Verified(c) && CF.Reachable(View(c), Abstract(core))
    requires c.InRange(core.pc)
    requires var i := c.program[core.pc];
      i.predicate_ != 0 || i.cls != CONTROL || i.opcode == NOP || (i.opcode == WAIT && !c.target.P3?)
    ensures CF.Reachable(View(c), Abstract(core.(pc := core.pc + 1))) && c.InRange(core.pc + 1)
  {
    hide CF.Reachable, CF.Accepts;
    var s := Abstract(core);
    var i := c.program[core.pc];
    var next := s.(pc := s.pc + 1);
    assert Abstract(core.(pc := core.pc + 1)) == next;
    if i.predicate_ != 0 {
      Follow(c, s, CF.Successor(CF.PredicateFalse, next));
    } else if i.cls == CONTROL && i.opcode == WAIT {
      Follow(c, s, CF.Successor(CF.WaitReady, next));
    } else {
      Follow(c, s, CF.Successor(CF.Fallthrough, next));
    }
  }

  /** The control effect agrees with the verifier's exploration. */
  ghost predicate EffectSafe(c: Config, core: Core, effect: ControlEffect)
    requires c.Valid() && c.InRange(core.pc)
  {
    match effect
    case Goto(pc, core') => CF.Reachable(View(c), Abstract(core'.(pc := pc))) && c.InRange(pc)
    case Finish => true
    case NotReady => true
    case ControlTrap(reason) =>
      && reason != 2 && reason != 3
      && (reason == 4 ==>
            var i := c.program[core.pc];
            var count := Reg(core.registers, i.src0) % 0x1_0000;
            i.opcode == LOOP_SETUP && (count == 0 || count > c.entry.maxLoopCount))
  }

  lemma BranchSafe(c: Config, core: Core, drained: bool, ready: bool)
    requires Verified(c) && CF.Reachable(View(c), Abstract(core)) && c.InRange(core.pc)
    requires c.program[core.pc].cls == CONTROL && c.program[core.pc].opcode in {JUMP_FWD, CALL_FWD, RET}
    ensures EffectSafe(c, core, ControlStep(c.entry, core, c.program[core.pc], drained, ready))
  {
    hide CF.Reachable, CF.Accepts;
    var s := Abstract(core);
    var i := c.program[core.pc];
    var next := core.pc + 1;
    Follow(c, s, CF.Successor(CF.Fallthrough, s));
    if i.opcode == JUMP_FWD {
      Follow(c, s, CF.Successor(CF.JumpTrue, s.(pc := next + i.immediate)));
    } else if i.opcode == CALL_FWD {
      Follow(c, s, CF.Successor(CF.CallTrue, s.(pc := next + i.immediate, stack := s.stack + [next])));
    } else {
      var top := |s.stack| - 1;
      Follow(c, s, CF.Successor(CF.Return, s.(pc := s.stack[top], stack := s.stack[..top])));
    }
  }

  lemma SetupSafe(c: Config, core: Core, drained: bool, ready: bool)
    requires Verified(c) && CF.Reachable(View(c), Abstract(core)) && c.InRange(core.pc)
    requires c.program[core.pc].cls == CONTROL && c.program[core.pc].opcode == LOOP_SETUP
    ensures EffectSafe(c, core, ControlStep(c.entry, core, c.program[core.pc], drained, ready))
  {
    hide CF.Reachable, CF.Accepts;
    var s := Abstract(core);
    var i := c.program[core.pc];
    var slot := i.aux % 4;
    var after := s.(pc := s.pc + 1, loops := s.loops[slot := s.pc + 1]);
    Follow(c, s, CF.Successor(CF.LoopSetup, after));
    var effect := ControlStep(c.entry, core, i, drained, ready);
    if effect.Goto? {
      assert Abstract(effect.core.(pc := effect.pc)).loops == after.loops;
    }
  }

  lemma BackSafe(c: Config, core: Core, drained: bool, ready: bool)
    requires Verified(c) && CF.Reachable(View(c), Abstract(core)) && c.InRange(core.pc)
    requires c.program[core.pc].cls == CONTROL && c.program[core.pc].opcode == LOOP_BACK
    ensures EffectSafe(c, core, ControlStep(c.entry, core, c.program[core.pc], drained, ready))
  {
    hide CF.Reachable, CF.Accepts;
    var s := Abstract(core);
    var i := c.program[core.pc];
    var slot := i.aux % 4;
    Follow(c, s, CF.Successor(CF.Fallthrough, s));
    StartInRange(c, core.pc);
    var repeat := s.(pc := s.loops[slot]);
    var exit := s.(pc := s.pc + 1, loops := s.loops - {slot});
    Follow(c, s, CF.Successor(CF.LoopRepeat, repeat));
    Follow(c, s, CF.Successor(CF.LoopExit, exit));
    var effect := ControlStep(c.entry, core, i, drained, ready);
    if core.loops[slot].0 > 1 {
      assert Abstract(effect.core.(pc := effect.pc)).loops == repeat.loops;
    } else {
      assert Abstract(effect.core.(pc := effect.pc)).loops == exit.loops;
    }
  }

  lemma StartInRange(c: Config, pc: int)
    requires Verified(c) && c.InRange(pc) && c.program[pc].cls == CONTROL && c.program[pc].opcode == LOOP_BACK
    ensures pc + 1 - c.program[pc].immediate >= c.entry.firstPc
  {
    assert CF.WellPlaced(View(c), pc);
  }

  lemma ControlSafe(c: Config, core: Core, drained: bool, ready: bool)
    requires Verified(c) && CF.Reachable(View(c), Abstract(core)) && c.InRange(core.pc)
    requires c.program[core.pc].cls == CONTROL
    ensures EffectSafe(c, core, ControlStep(c.entry, core, c.program[core.pc], drained, ready))
  {
    hide CF.Reachable, CF.Accepts;
    var i := c.program[core.pc];
    if i.opcode == JUMP_FWD || i.opcode == CALL_FWD || i.opcode == RET {
      BranchSafe(c, core, drained, ready);
    } else if i.opcode == LOOP_SETUP {
      SetupSafe(c, core, drained, ready);
    } else if i.opcode == LOOP_BACK {
      BackSafe(c, core, drained, ready);
    } else if i.opcode != END && i.opcode != TRAP {
      Follow(c, Abstract(core), CF.Successor(CF.Fallthrough, Abstract(core)));
      FallThrough(c, core);
    }
  }

  // ---------------------------------------------------------------- One step

  lemma AdvanceSafe(c: Config, m: Machine, pc: int)
    requires Verified(c) && FaultsKnown(m)
    requires CF.Reachable(View(c), Abstract(m.core.(pc := pc))) && c.InRange(pc)
    ensures Safe(c, Advance(c, m, pc))
  {
    hide CF.Reachable, CF.Accepts;
    assert Abstract(Retire(m).core.(pc := pc)) == Abstract(m.core.(pc := pc));
  }

  /** The abstract state after falling through, whatever happened to the rest. */
  lemma PlainAdvance(c: Config, m: Machine, m': Machine)
    requires Verified(c) && Simulated(c, m) && c.InRange(m.core.pc) && c.program[m.core.pc].cls != CONTROL
    requires FaultsKnown(m') && Abstract(m'.core) == Abstract(m.core)
    ensures Safe(c, Advance(c, m', m.core.pc + 1))
  {
    hide CF.Reachable, CF.Accepts;
    FallThrough(c, m.core);
    assert Abstract(m'.core.(pc := m.core.pc + 1)) == Abstract(m'.core).(pc := m.core.pc + 1);
    assert Abstract(m.core.(pc := m.core.pc + 1)) == Abstract(m.core).(pc := m.core.pc + 1);
    AdvanceSafe(c, m', m.core.pc + 1);
  }

  lemma StallSafe(c: Config, w: Timing, m: Machine)
    requires c.Valid() && Simulated(c, m)
    ensures Safe(c, Stall(w, m))
  {
    hide CF.Reachable;
  }

  lemma TransportSafe(c: Config, w: Timing, m: Machine, i: Instruction)
    requires Verified(c) && Simulated(c, m) && c.InRange(m.core.pc) && i == c.program[m.core.pc] && i.cls == TRANSPORT
    ensures Safe(c, TransportStep(c, w, m, i))
  {
    hide CF.Reachable, CF.Accepts, IssueCommand, TickTransport, Advance, Stall, EngineReasons;
    StallSafe(c, w, m);
    if m.transport.Some? && m.prims.Some? {
      IssueReasons(c.settings, m.transport.value, w.latency, i, m.core.registers, c.entry, m.prims.value);
      var issue := IssueCommand(c.settings, m.transport.value, w.latency, i, m.core.registers, c.entry, m.prims.value);
      if issue.Accepted? {
        var issued := m.(transport := Some(issue.transport));
        TransportTickKeeps(c, issued);
        if i.opcode <= OUTPUT_STREAM {
          PlainAdvance(c, m, issued.(transportDst := issued.transportDst + {i.dst}));
        } else {
          PlainAdvance(c, m, TickTransport(c, issued));
        }
      }
    }
  }

  lemma PrimitiveSafe(c: Config, w: Timing, m: Machine, i: Instruction)
    requires Verified(c) && Simulated(c, m) && c.InRange(m.core.pc) && i == c.program[m.core.pc] && i.cls != CONTROL
    ensures Safe(c, PrimitiveStep(c, w, m, i))
  {
    hide CF.Reachable, CF.Accepts, Advance, Stall, Cycles, Buffered, Starved, FifoBlocked, Retire;
    StallSafe(c, w, m);
    if m.prims.Some? && !FifoBlocked(i, m.prims.value) {
      var p := Buffered(i, m.core.registers, m.prims.value);
      StallSafe(c, w, m.(prims := Some(p)));
      if !Starved(i, m.core.registers, p) {
        var idle := Max(w.cycles(i, m.core.registers, p) - 1, 0);
        match Invoke(c, m.core.registers, p, i)
        case Faulted(p', fault) =>
          var late := m.(prims := Some(p'.(kernelDone := false)),
                         kernel := m.kernel.(result := Some(map[]), pendingFault := Some(fault),
                           pendingDst := Some(i.dst), cycles := 0));
          PlainAdvance(c, m, CompleteKernel(late));
        case Executed(p', writes) =>
          if i.cls == KERNEL {
            var issued := m.(prims := Some(p'.(kernelDone := false)),
                             kernel := m.kernel.(result := Some(writes), pendingDst := Some(i.dst), cycles := idle));
            PlainAdvance(c, m, if idle == 0 then CompleteKernel(issued) else issued);
          } else {
            var written := m.(prims := Some(p'), core := m.core.(registers := ApplyWrites(m.core.registers, writes)));
            CyclesKeep(c, w, written, idle);
            var o := Cycles(c, w, written, idle);
            if o.Next? {
              PlainAdvance(c, m, o.m);
            }
          }
      }
    }
  }

  lemma ExecuteSafe(c: Config, w: Timing, m: Machine, i: Instruction)
    requires Verified(c) && Simulated(c, m) && c.InRange(m.core.pc) && i == c.program[m.core.pc]
    ensures Safe(c, Execute(c, w, m, i))
  {
    hide CF.Reachable, CF.Accepts, Advance, Stall, PrimitiveStep, TransportStep, ControlStep, ScalarStep, WaitReady;
    if i.cls == CONTROL {
      var drained := m.transport.None? || m.transport.value.pending == [];
      var ready := WaitReady(i, m.prims, m.transport);
      ControlSafe(c, m.core, drained, ready);
      StallSafe(c, w, m);
      var effect := ControlStep(c.entry, m.core, i, drained, ready);
      if effect.Goto? {
        AdvanceSafe(c, m.(core := effect.core), effect.pc);
      }
    } else if i.cls == SCALAR {
      ScalarKeeps(m.core, i);
      PlainAdvance(c, m, m.(core := ScalarStep(m.core, i)));
    } else if i.cls == TRANSPORT {
      TransportSafe(c, w, m, i);
    } else {
      PrimitiveSafe(c, w, m, i);
    }
  }

  lemma ScalarKeeps(core: Core, i: Instruction)
    ensures Abstract(ScalarStep(core, i)) == Abstract(core)
  {
  }

  lemma SkipSafe(c: Config, m: Machine)
    requires Verified(c) && Simulated(c, m) && c.InRange(m.core.pc) && c.program[m.core.pc].predicate_ != 0
    ensures m.core.pc < c.entry.lastPc && m.core.pc != (if c.abi.V1? then 0x7FF else 0xFFF)
    ensures Simulated(c, Retire(m).(core := m.core.(retired := m.core.retired + 1, pc := m.core.pc + 1)))
  {
    hide CF.Reachable, CF.Accepts;
    FallThrough(c, m.core);
    var after := m.core.(retired := m.core.retired + 1, pc := m.core.pc + 1);
    assert Abstract(after) == Abstract(m.core.(pc := m.core.pc + 1));
  }

  lemma StepSafe(c: Config, w: Timing, m: Machine)
    requires Verified(c) && Simulated(c, m)
    ensures Safe(c, Step(c, w, m))
  {
    hide CF.Reachable, CF.Accepts, Ticks, Execute, Stall, Advance, ValidInstruction;
    Follow(c, Abstract(m.core), CF.Successor(CF.Fallthrough, Abstract(m.core)));
    TicksKeep(c, m);
    var m1 := Ticks(c, m);
    assert m1.core.pc == Abstract(m1.core).pc == m.core.pc;
    var i := c.program[m.core.pc];
    ExecuteSafe(c, w, m1, i);
    StallSafe(c, w, m1);
    if !PredicateHolds(c, w, m1, i.predicate_) {
      SkipSafe(c, m1);
    }
  }

  lemma HappenSafe(c: Config, w: Timing, m: Machine, event: Event)
    requires Verified(c) && Simulated(c, m)
    ensures Safe(c, Happen(c, w, m, event))
  {
    hide CF.Reachable, CF.Accepts, Ticks, Step, Stall;
    match event
    case StepEvent => StepSafe(c, w, m);
    case CycleEvent =>
      TicksKeep(c, m);
      StallSafe(c, w, Ticks(c, m));
  }

  lemma {:induction false} ExecSafe(c: Config, w: Timing, m: Machine, events: seq<Event>)
    requires Verified(c) && Simulated(c, m)
    ensures Safe(c, Exec(c, w, m, events))
    decreases |events|
  {
    hide CF.Reachable, CF.Accepts, Happen;
    if events == [] {
    } else {
      HappenSafe(c, w, m, events[0]);
      var o := Happen(c, w, m, events[0]);
      if o.Next? {
        ExecSafe(c, w, o.m, events[1..]);
      }
    }
  }

  /** Verifier soundness: on an accepted program no run, whatever the data, the
      predicate inputs and the delays, traps on the PC range (2) or the call stack
      (3), and a loop trap (4) only reports a rejected run-time count. */
  lemma VerifierSound(c: Config, w: Timing, memory: Option<Memory>, transport: bool, events: seq<Event>)
    requires Verified(c)
    ensures Safe(c, Exec(c, w, Boot(c, memory, transport), events))
  {
    hide CF.Reachable, CF.Accepts, Exec;
    var m := Boot(c, memory, transport);
    CF.InitialReachable(View(c));
    assert Abstract(m.core) == CF.Initial(View(c));
    ExecSafe(c, w, m, events);
  }
}

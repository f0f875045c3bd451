/** The retirement budget. The counter it is checked against counts every retirement
    since the job began; FRAME_COMMIT does not reset it, although the instruction table
    describes a counter per frame. The two agree exactly until the first frame commit. */
module Budget {
  import opened Common
  import opened Isa
  import opened Memory
  import opened Transport
  import opened Machine
  import Soundness
  import Sequencer

  // ---------------------------------------------------------------- One event

  predicate Retires(m: Machine, o: Outcome) { o.m.core.retired > m.core.retired }

  lemma {:induction false} CyclesKeepRetired(c: Config, w: Timing, m: Machine, n: nat)
    ensures var o := Cycles(c, w, m, n);
      o.m.core == m.core.(registers := o.m.core.registers) && !o.Done? && (o.Trap? ==> o.reason == 7)
    decreases n
  {
    hide Ticks;
    if n == 0 {
    } else {
      Sequencer.TicksKeepCounters(c, m);
      var o := Cycle(c, w, m);
      if o.Next? {
        CyclesKeepRetired(c, w, o.m, n - 1);
      }
    }
  }

  /** At most one retirement, and no trap with the budget's reason. */
  ghost predicate OneMore(m: Machine, o: Outcome) {
    && m.core.retired <= o.m.core.retired <= m.core.retired + 1
    && (o.Done? ==> Retires(m, o)) && (o.Trap? ==> o.reason != 8)
  }

  lemma ControlOneMore(c: Config, w: Timing, m: Machine, i: Instruction)
    requires i.cls == CONTROL
    ensures OneMore(m, Execute(c, w, m, i))
  {
    hide ControlStep, WaitReady;
    var drained := m.transport.None? || m.transport.value.pending == [];
    Sequencer.ControlKeepsCounters(c.entry, m.core, i, drained, WaitReady(i, m.prims, m.transport));
    ControlReasons(c.entry, m.core, i, drained, WaitReady(i, m.prims, m.transport));
  }

  lemma ControlReasons(e: Entry, core: Core, i: Instruction, drained: bool, ready: bool)
    ensures var effect := ControlStep(e, core, i, drained, ready);
      effect.ControlTrap? ==> effect.reason in {3, 4, 10}
  {
  }

  lemma TransportOneMore(c: Config, w: Timing, m: Machine, i: Instruction)
    ensures OneMore(m, TransportStep(c, w, m, i))
  {
    hide IssueCommand, TickTransport;
    if m.transport.Some? && m.prims.Some? {
      IssueReasons(c.settings, m.transport.value, w.latency, i, m.core.registers, c.entry, m.prims.value);
      var issue := IssueCommand(c.settings, m.transport.value, w.latency, i, m.core.registers, c.entry, m.prims.value);
      if issue.Accepted? {
        Sequencer.TransportTickKeepsCounters(c, m.(transport := Some(issue.transport)));
      }
    }
  }

  lemma PrimitiveOneMore(c: Config, w: Timing, m: Machine, i: Instruction)
    requires Soundness.EngineReasons(c)
    ensures OneMore(m, PrimitiveStep(c, w, m, i))
  {
    hide Cycles, Reservoir.Refill;
    if m.prims.Some? {
      var p := Buffered(i, m.core.registers, m.prims.value);
      var result := Invoke(c, m.core.registers, p, i);
      if result.Executed? {
        CyclesKeepRetired(c, w,
          m.(prims := Some(result.prims), core := m.core.(registers := ApplyWrites(m.core.registers, result.writes))),
          Max(w.cycles(i, m.core.registers, p) - 1, 0));
      }
    }
  }

  lemma ExecuteOneMore(c: Config, w: Timing, m: Machine, i: Instruction)
    requires Soundness.EngineReasons(c)
    ensures OneMore(m, Execute(c, w, m, i))
  {
    hide TransportStep, PrimitiveStep, ControlStep, Alu;
    if i.cls == CONTROL {
      ControlOneMore(c, w, m, i);
    } else if i.cls == TRANSPORT {
      TransportOneMore(c, w, m, i);
    } else if i.cls != SCALAR {
      PrimitiveOneMore(c, w, m, i);
    }
  }

  /** The step reaches the budget check. */
  predicate Checked(c: Config, m: Machine)
    requires c.Valid()
  {
    && c.InRange(m.core.pc)
    && Ticks(c, m).kernel.fault.None? && Ticks(c, m).transportFault.None?
    && ValidInstruction(c.program[m.core.pc], c.target, c.abi)
  }

  /** A step traps with reason 8 exactly when it reaches the check with the counter at the
      limit; it never retires then. */
  lemma BudgetTrapIff(c: Config, w: Timing, m: Machine)
    requires c.Valid() && Soundness.EngineReasons(c) && Soundness.FaultsKnown(m)
    ensures var o := Step(c, w, m);
      && ((o.Trap? && o.reason == 8) <==> (Checked(c, m) && m.core.retired >= c.entry.maxRetired))
      && (m.core.retired >= c.entry.maxRetired ==> o.Trap? && !Retires(m, o))
      && m.core.retired <= o.m.core.retired <= m.core.retired + 1 && (o.Done? ==> Retires(m, o))
  {
    hide Ticks, Execute, ValidInstruction;
    if c.InRange(m.core.pc) {
      Soundness.TicksKeep(c, m);
      Sequencer.TicksKeepCounters(c, m);
      ExecuteOneMore(c, w, Ticks(c, m), c.program[m.core.pc]);
    }
  }

  // ---------------------------------------------------------------- Runs

  /** How many events of the run retire an instruction. */
  function Retirements(c: Config, w: Timing, m: Machine, events: seq<Event>): nat
    requires c.Valid()
    decreases |events|
  {
    if events == [] then 0
    else
      var o := Happen(c, w, m, events[0]);
      (if Retires(m, o) then 1 else 0) + (if o.Next? then Retirements(c, w, o.m, events[1..]) else 0)
  }

  lemma EventOneMore(c: Config, w: Timing, m: Machine, event: Event)
    requires c.Valid() && Soundness.EngineReasons(c) && Soundness.FaultsKnown(m)
    ensures var o := Happen(c, w, m, event);
      && m.core.retired <= o.m.core.retired <= m.core.retired + 1
      && (Retires(m, o) ==> m.core.retired < c.entry.maxRetired)
      && (o.Trap? && o.reason == 8 ==> o.m.core.retired >= c.entry.maxRetired)
  {
    hide Ticks, Step;
    BudgetTrapIff(c, w, m);
    Sequencer.TicksKeepCounters(c, m);
    StepTrapKeeps(c, w, m);
  }

  lemma StepTrapKeeps(c: Config, w: Timing, m: Machine)
    requires c.Valid() && Soundness.EngineReasons(c) && Soundness.FaultsKnown(m)
    ensures var o := Step(c, w, m); o.Trap? && o.reason == 8 ==> o.m.core.retired == m.core.retired
  {
    hide Ticks, Step, Checked;
    BudgetTrapIff(c, w, m);
  }

  // Faults in flight keep the reasons of the engines, so none of them reads as 8.

  lemma PrimitiveKnown(c: Config, w: Timing, m: Machine, i: Instruction)
    requires Soundness.EngineReasons(c) && Soundness.FaultsKnown(m)
    ensures var o := PrimitiveStep(c, w, m, i); o.Next? ==> Soundness.FaultsKnown(o.m)
  {
    hide Cycles, Buffered, FifoBlocked, Starved, ApplyWrites, Soundness.EngineReasons;
    if m.prims.Some? {
      var p := Buffered(i, m.core.registers, m.prims.value);
      EngineFaultKnown(c, i, m.core.registers, p);
      var result := Invoke(c, m.core.registers, p, i);
      if result.Executed? {
        Soundness.CyclesKeep(c, w,
          m.(prims := Some(result.prims), core := m.core.(registers := ApplyWrites(m.core.registers, result.writes))),
          Max(w.cycles(i, m.core.registers, p) - 1, 0));
      }
    }
  }

  lemma EngineFaultKnown(c: Config, i: Instruction, r: Registers, p: Prims)
    requires Soundness.EngineReasons(c)
    ensures Invoke(c, r, p, i).Faulted? ==> Invoke(c, r, p, i).fault.reason in {5, 9}
  {
  }

  lemma TransportKnown(c: Config, w: Timing, m: Machine, i: Instruction)
    requires Soundness.FaultsKnown(m)
    ensures var o := TransportStep(c, w, m, i); o.Next? ==> Soundness.FaultsKnown(o.m)
  {
    hide IssueCommand, TickTransport;
    if m.transport.Some? && m.prims.Some? {
      var issue := IssueCommand(c.settings, m.transport.value, w.latency, i, m.core.registers, c.entry, m.prims.value);
      if issue.Accepted? {
        Soundness.TransportTickKeeps(c, m.(transport := Some(issue.transport)));
      }
    }
  }

  lemma EventKnown(c: Config, w: Timing, m: Machine, event: Event)
    requires c.Valid() && Soundness.EngineReasons(c) && Soundness.FaultsKnown(m)
    ensures var o := Happen(c, w, m, event); o.Next? ==> Soundness.FaultsKnown(o.m)
  {
    hide Ticks, PrimitiveStep, TransportStep, ControlStep, ScalarStep, WaitReady, ValidInstruction;
    Soundness.TicksKeep(c, m);
    if event.StepEvent? && c.InRange(m.core.pc) {
      PrimitiveKnown(c, w, Ticks(c, m), c.program[m.core.pc]);
      TransportKnown(c, w, Ticks(c, m), c.program[m.core.pc]);
    }
  }

  /** The counter is the number of retirements of the whole run, never exceeds the limit,
      and is at the limit when the run ends with reason 8. */
  lemma {:induction false} CounterIsTotal(c: Config, w: Timing, m: Machine, events: seq<Event>)
    requires c.Valid() && Soundness.EngineReasons(c) && Soundness.FaultsKnown(m) && m.core.retired <= c.entry.maxRetired
    ensures var o := Exec(c, w, m, events);
      && o.m.core.retired == m.core.retired + Retirements(c, w, m, events) <= c.entry.maxRetired
      && (o.Trap? && o.reason == 8 ==> o.m.core.retired == c.entry.maxRetired)
    decreases |events|
  {
    hide Happen;
    if events == [] {
    } else {
      var o := Happen(c, w, m, events[0]);
      EventOneMore(c, w, m, events[0]);
      EventKnown(c, w, m, events[0]);
      if o.Next? {
        CounterIsTotal(c, w, o.m, events[1..]);
      }
    }
  }

  lemma RunBudget(c: Config, w: Timing, memory: Option<Memory>, transport: bool, events: seq<Event>)
    requires c.Valid() && Soundness.EngineReasons(c)
    ensures var o := Exec(c, w, Boot(c, memory, transport), events);
      && o.m.core.retired == Retirements(c, w, Boot(c, memory, transport), events) <= c.entry.maxRetired
      && (o.Trap? && o.reason == 8 ==> o.m.core.retired == c.entry.maxRetired)
  {
    hide Exec, Retirements;
    CounterIsTotal(c, w, Boot(c, memory, transport), events);
  }

  // ---------------------------------------------------------------- The documented counter

  /** The event retires a FRAME_COMMIT that took effect. */
  predicate Commits(c: Config, w: Timing, m: Machine, event: Event)
    requires c.Valid()
  {
    && event.StepEvent? && c.InRange(m.core.pc) && Retires(m, Happen(c, w, m, event))
    && var i := c.program[m.core.pc];
       i.cls == TRANSPORT && i.opcode == FRAME_COMMIT && PredicateHolds(c, w, Ticks(c, m), i.predicate_)
  }

  /** Some event of the run commits a frame. */
  predicate Committed(c: Config, w: Timing, m: Machine, events: seq<Event>)
    requires c.Valid()
    decreases |events|
  {
    && events != []
    && var o := Happen(c, w, m, events[0]);
       Commits(c, w, m, events[0]) || (o.Next? && Committed(c, w, o.m, events[1..]))
  }

  /** The counter as documented: reset by every frame commit. */
  function FrameCounter(c: Config, w: Timing, m: Machine, events: seq<Event>, count: nat): nat
    requires c.Valid()
    decreases |events|
  {
    if events == [] then count
    else
      var o := Happen(c, w, m, events[0]);
      var next := if !Retires(m, o) then count else if Commits(c, w, m, events[0]) then 0 else count + 1;
      if o.Next? then FrameCounter(c, w, o.m, events[1..], next) else next
  }

  lemma {:induction false} FrameCounterSplit(c: Config, w: Timing, m: Machine, events: seq<Event>, count: nat)
    requires c.Valid()
    ensures var documented, total := FrameCounter(c, w, m, events, count), count + Retirements(c, w, m, events);
      if Committed(c, w, m, events) then documented < total else documented == total
    decreases |events|
  {
    hide Happen;
    if events == [] {
    } else {
      var o := Happen(c, w, m, events[0]);
      var next := if !Retires(m, o) then count else if Commits(c, w, m, events[0]) then 0 else count + 1;
      if o.Next? {
        FrameCounterSplit(c, w, o.m, events[1..], next);
      }
    }
  }

  /** A run that ends with reason 8 has used up the documented budget if and only if it
      has committed no frame. */
  lemma DocumentedBudgetIff(c: Config, w: Timing, memory: Option<Memory>, transport: bool, events: seq<Event>)
    requires c.Valid() && Soundness.EngineReasons(c)
    requires var o := Exec(c, w, Boot(c, memory, transport), events); o.Trap? && o.reason == 8
    ensures FrameCounter(c, w, Boot(c, memory, transport), events, 0) == c.entry.maxRetired
       <==> !Committed(c, w, Boot(c, memory, transport), events)
  {
    hide Exec, Retirements, FrameCounter, Committed;
    RunBudget(c, w, memory, transport, events);
    FrameCounterSplit(c, w, Boot(c, memory, transport), events, 0);
  }
}

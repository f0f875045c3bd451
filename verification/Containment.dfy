/** No run of the machine changes a byte outside the entry's scratch window, so the
    table payload and every other region of local memory stay constant. */
module Containment {
  import opened Common
  import opened Isa
  import opened Memory
  import opened Transport
  import opened Machine

  /** The engine writes through the bounded interface of the local memory only. */
  ghost predicate EngineContained(c: Config) {
    forall i, r, p: Prims :: Kept(p.memory, c.engine(i, r, c.entry, p).prims.memory, c.entry)
  }

  /** The machine's memory still equals `base` outside the window. */
  ghost predicate Contained(c: Config, base: Memory, m: Machine) {
    m.prims.Some? && Kept(base, m.prims.value.memory, c.entry)
  }

  lemma KeptTransitive(a: Memory, b: Memory, d: Memory, e: Entry)
    requires Kept(a, b, e) && Kept(b, d, e)
    ensures Kept(a, d, e)
  {
  }

  lemma {:induction false} CompletionsKeep(s: Settings, t: Transport, p: Prims, e: Entry, ready: seq<Command>)
    ensures Kept(p.memory, CompleteAll(s, t, p, e, ready).prims.memory, e)
    decreases |ready|
  {
    hide Kept, Write, PushAll, RefillWords;
    if ready == [] {
      KeptSelf(p.memory, e);
    } else {
      CompletionKeeps(s, t, p, e, ready[0]);
      var first := Complete(s, t, p, e, ready[0]);
      if first.fault.None? {
        CompletionsKeep(s, first.transport, first.prims, e, ready[1..]);
        KeptTransitive(p.memory, first.prims.memory, CompleteAll(s, t, p, e, ready).prims.memory, e);
      }
    }
  }

  lemma KeptSelf(m: Memory, e: Entry)
    ensures Kept(m, m, e)
  {
  }

  lemma CompletionKeeps(s: Settings, t: Transport, p: Prims, e: Entry, command: Command)
    ensures Kept(p.memory, Complete(s, t, p, e, command).prims.memory, e)
  {
    hide Kept, Write, PushAll, RefillWords;
    KeptSelf(p.memory, e);
    WriteStaysInWindow(p.memory, e.scratchBase + command.offset, command.payload, e);
    WriteStaysInWindow(p.memory, ContextAddress(e), WordBytesLE(|t.output + command.payload|), e);
  }

  lemma {:induction false} DrainKeepsPrims(m: Machine, t: Transport)
    ensures Drain(m, t).prims == m.prims
    decreases |t.completed|
  {
    if t.completed == [] {
    } else {
      var (register, value) := t.completed[0];
      DrainKeepsPrims(
        m.(core := m.core.(registers := SetReg(m.core.registers, register, value)),
          transportDst := m.transportDst - {register}),
        t.(completed := t.completed[1..]));
    }
  }

  lemma TransportTickContained(c: Config, base: Memory, m: Machine)
    requires Contained(c, base, m)
    ensures Contained(c, base, TickTransport(c, m))
  {
    hide Kept, CompleteAll, Drain;
    if m.transport.Some? && m.prims.Some? {
      var t := m.transport.value.(pending := CountDown(m.transport.value.pending));
      var done := Tick(c.settings, m.transport.value, m.prims.value, c.entry);
      CompletionsKeep(c.settings, t, m.prims.value, c.entry, Ready(t.pending));
      KeptTransitive(base, m.prims.value.memory, done.prims.memory, c.entry);
      DrainKeepsPrims(m.(prims := Some(done.prims)), done.transport);
    }
  }

  lemma TicksContained(c: Config, base: Memory, m: Machine)
    requires Contained(c, base, m)
    ensures Contained(c, base, Ticks(c, m))
  {
    hide Kept, TickTransport;
    assert Contained(c, base, TickKernel(m));
    TransportTickContained(c, base, TickKernel(m));
  }

  lemma {:induction false} CyclesContained(c: Config, w: Timing, base: Memory, m: Machine, n: nat)
    requires Contained(c, base, m)
    ensures Contained(c, base, Cycles(c, w, m, n).m)
    decreases n
  {
    hide Kept, Ticks;
    if n == 0 {
    } else {
      TicksContained(c, base, m);
      if Cycle(c, w, m).Next? {
        CyclesContained(c, w, base, Cycle(c, w, m).m, n - 1);
      }
    }
  }

  lemma PrimitiveContained(c: Config, w: Timing, base: Memory, m: Machine, i: Instruction)
    requires EngineContained(c) && Contained(c, base, m)
    ensures Contained(c, base, PrimitiveStep(c, w, m, i).m)
  {
    hide Kept, Cycles;
    if m.prims.Some? {
      var p := Buffered(i, m.core.registers, m.prims.value);
      var result := Invoke(c, m.core.registers, p, i);
      KeptTransitive(base, p.memory, result.prims.memory, c.entry);
      if result.Executed? {
        CyclesContained(c, w, base,
          m.(prims := Some(result.prims), core := m.core.(registers := ApplyWrites(m.core.registers, result.writes))),
          Max(w.cycles(i, m.core.registers, p) - 1, 0));
      }
    }
  }

  lemma TransportStepContained(c: Config, w: Timing, base: Memory, m: Machine, i: Instruction)
    requires Contained(c, base, m)
    ensures Contained(c, base, TransportStep(c, w, m, i).m)
  {
    hide Kept, TickTransport, IssueCommand;
    if m.transport.Some? && m.prims.Some? {
      var issue := IssueCommand(c.settings, m.transport.value, w.latency, i, m.core.registers, c.entry, m.prims.value);
      if issue.Accepted? {
        TransportTickContained(c, base, m.(transport := Some(issue.transport)));
      }
    }
  }

  lemma DecideContained(c: Config, w: Timing, base: Memory, m: Machine, i: Instruction)
    requires EngineContained(c) && Contained(c, base, m)
    ensures Contained(c, base, Decide(c, w, m, i).m)
  {
    hide Kept, TransportStep, PrimitiveStep, ValidInstruction, ControlStep, ScalarStep, WaitReady;
    PrimitiveContained(c, w, base, m, i);
    TransportStepContained(c, w, base, m, i);
  }

  lemma {:induction false} ExecContained(c: Config, w: Timing, base: Memory, m: Machine, events: seq<Event>)
    requires c.Valid() && EngineContained(c) && Contained(c, base, m)
    ensures Contained(c, base, Exec(c, w, m, events).m)
    decreases |events|
  {
    hide Kept, Ticks, Decide;
    if events == [] {
    } else {
      TicksContained(c, base, m);
      if events[0].StepEvent? && c.InRange(m.core.pc) {
        DecideContained(c, w, base, Ticks(c, m), c.program[m.core.pc]);
      }
      var o := Happen(c, w, m, events[0]);
      if o.Next? {
        ExecContained(c, w, base, o.m, events[1..]);
      }
    }
  }

  /** At every point of every run, also when it traps, local memory outside the scratch
      window is what it was before the job, table payload included. */
  lemma RunStaysInWindow(c: Config, w: Timing, memory: Memory, transport: bool, events: seq<Event>)
    requires c.Valid() && EngineContained(c)
    ensures var m := Exec(c, w, Boot(c, Some(memory), transport), events).m;
      m.prims.Some? && Kept(memory, m.prims.value.memory, c.entry)
  {
    hide Exec;
    assert Kept(memory, NewEpoch(memory), c.entry);
    ExecContained(c, w, memory, Boot(c, Some(memory), transport), events);
  }
}

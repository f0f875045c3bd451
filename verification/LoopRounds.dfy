/** A loop makes as many rounds as its counter says: in every run, whatever lies in its body,
    each closing instruction of the loop takes one round from the counter and goes back, and
    the last one leaves. */
module LoopRounds {
  import opened Common
  import opened Isa
  import opened Memory
  import opened Transport
  import opened Machine
  import Budget
  import Sequencer

  /** The event executes the LOOP_BACK of this slot. */
  predicate ClosesRound(c: Config, w: Timing, m: Machine, event: Event, slot: nat)
    requires c.Valid()
  {
    && event.StepEvent? && c.InRange(m.core.pc)
    && var i := c.program[m.core.pc];
       && i.cls == CONTROL && i.opcode == LOOP_BACK && i.aux % 4 == slot
       && PredicateHolds(c, w, Ticks(c, m), i.predicate_)
       && Step(c, w, m).m.core.retired > m.core.retired
  }

  /** How many rounds of the slot the run closes. */
  function RoundsClosed(c: Config, w: Timing, m: Machine, events: seq<Event>, slot: nat): nat
    requires c.Valid()
    decreases |events|
  {
    if events == [] then 0
    else
      var o := Happen(c, w, m, events[0]);
      (if ClosesRound(c, w, m, events[0], slot) then 1 else 0)
      + (if o.Next? then RoundsClosed(c, w, o.m, events[1..], slot) else 0)
  }

  /** The loop of this slot is active with this counter and start. */
  predicate Active(m: Machine, slot: nat, count: nat, start: int) {
    slot in m.core.loops && m.core.loops[slot] == (count, start)
  }

  // ---------------------------------------------------------------- One event

  /** What leaves the loops alone. */
  predicate SameLoops(m: Machine, o: Outcome) { o.Next? ==> o.m.core.loops == m.core.loops }

  lemma TransportSameLoops(c: Config, w: Timing, m: Machine, i: Instruction)
    ensures SameLoops(m, TransportStep(c, w, m, i))
  {
    hide IssueCommand, TickTransport;
    if m.transport.Some? && m.prims.Some? {
      var issue := IssueCommand(c.settings, m.transport.value, w.latency, i, m.core.registers, c.entry, m.prims.value);
      if issue.Accepted? {
        Sequencer.TransportTickKeepsCounters(c, m.(transport := Some(issue.transport)));
      }
    }
  }

  lemma PrimitiveSameLoops(c: Config, w: Timing, m: Machine, i: Instruction)
    ensures SameLoops(m, PrimitiveStep(c, w, m, i))
  {
    hide Cycles, Buffered, Starved, FifoBlocked, Invoke, ApplyWrites;
    if m.prims.Some? {
      var p := Buffered(i, m.core.registers, m.prims.value);
      var result := Invoke(c, m.core.registers, p, i);
      if result.Executed? {
        Budget.CyclesKeepRetired(c, w,
          m.(prims := Some(result.prims), core := m.core.(registers := ApplyWrites(m.core.registers, result.writes))),
          Max(w.cycles(i, m.core.registers, p) - 1, 0));
      }
    }
  }

  lemma OthersSameLoops(c: Config, w: Timing, m: Machine, i: Instruction)
    requires i.cls != CONTROL
    ensures SameLoops(m, Execute(c, w, m, i))
  {
    hide TransportStep, PrimitiveStep, ControlStep, Alu;
    TransportSameLoops(c, w, m, i);
    PrimitiveSameLoops(c, w, m, i);
  }

  /** A control instruction takes one round if it closes the loop, and cannot touch the
      counter of an active loop otherwise. */
  lemma ControlRounds(c: Config, w: Timing, m: Machine, i: Instruction, slot: nat, count: nat, start: int)
    requires i.cls == CONTROL && Active(m, slot, count, start)
    ensures var o, m' := Execute(c, w, m, i), Execute(c, w, m, i).m;
      o.Next? && m'.core.retired > m.core.retired && i.opcode == LOOP_BACK && i.aux % 4 == slot ==>
        if count > 1 then Active(m', slot, count - 1, start) && m'.core.pc == start
        else slot !in m'.core.loops && m'.core.pc == m.core.pc + 1
    ensures var o, m' := Execute(c, w, m, i), Execute(c, w, m, i).m;
      o.Next? && (m'.core.retired == m.core.retired || i.opcode != LOOP_BACK || i.aux % 4 != slot) ==>
        Active(m', slot, count, start)
  {
    hide WaitReady;
  }

  /** What an event does to an active loop. */
  lemma EventRounds(c: Config, w: Timing, m: Machine, event: Event, slot: nat, count: nat, start: int)
    requires c.Valid() && Active(m, slot, count, start) && Happen(c, w, m, event).Next?
    ensures var m' := Happen(c, w, m, event).m;
      if !ClosesRound(c, w, m, event, slot) then Active(m', slot, count, start)
      else if count > 1 then Active(m', slot, count - 1, start) && m'.core.pc == start
      else slot !in m'.core.loops && m'.core.pc == m.core.pc + 1
  {
    hide Ticks, Execute, ValidInstruction, PredicateHolds, PendingDependency;
    var m1 := Ticks(c, m);
    Sequencer.TicksKeepCounters(c, m);
    if event.StepEvent? && c.InRange(m.core.pc) {
      var i := c.program[m.core.pc];
      if i.cls == CONTROL {
        ControlRounds(c, w, m1, i, slot, count, start);
        ControlRetires(c, w, m1, i);
      } else {
        OthersSameLoops(c, w, m1, i);
      }
    }
  }

  lemma ControlRetires(c: Config, w: Timing, m: Machine, i: Instruction)
    requires i.cls == CONTROL
    ensures var o := Execute(c, w, m, i); o.Next? ==> m.core.retired <= o.m.core.retired <= m.core.retired + 1
  {
    hide WaitReady;
  }

  // ---------------------------------------------------------------- Runs

  /** As long as fewer rounds have been closed than the counter says, the loop stays active
      with the rounds that are left. */
  lemma {:induction false} RoundsLeft(
    c: Config, w: Timing, m: Machine, events: seq<Event>, slot: nat, count: nat, start: int)
    requires c.Valid() && Active(m, slot, count, start)
    ensures var o, closed := Exec(c, w, m, events), RoundsClosed(c, w, m, events, slot);
      o.Next? && closed < count ==> Active(o.m, slot, count - closed, start)
    decreases |events|
  {
    hide Happen, ClosesRound;
    if events == [] {
    } else {
      var o := Happen(c, w, m, events[0]);
      if o.Next? {
        EventRounds(c, w, m, events[0], slot, count, start);
        if !ClosesRound(c, w, m, events[0], slot) {
          RoundsLeft(c, w, o.m, events[1..], slot, count, start);
        } else if count > 1 {
          RoundsLeft(c, w, o.m, events[1..], slot, count - 1, start);
        }
      }
    }
  }

  /** A loop that begins with `count` rounds: before the last of them is closed, every closing
      instruction goes back to the start; the one that closes the last round leaves the loop
      and frees its slot. */
  lemma LoopRunsItsCount(
    c: Config, w: Timing, m: Machine, events: seq<Event>, slot: nat, count: nat, start: int)
    requires c.Valid() && Active(m, slot, count, start) && count >= 1
    requires Exec(c, w, m, events).Next? && RoundsClosed(c, w, m, events, slot) < count
    requires var m1 := Exec(c, w, m, events).m;
      ClosesRound(c, w, m1, StepEvent, slot) && Happen(c, w, m1, StepEvent).Next?
    ensures var closed, m1 := RoundsClosed(c, w, m, events, slot) + 1, Exec(c, w, m, events).m;
      var m2 := Happen(c, w, m1, StepEvent).m;
      if closed < count then Active(m2, slot, count - closed, start) && m2.core.pc == start
      else slot !in m2.core.loops && m2.core.pc == m1.core.pc + 1
  {
    hide Happen, ClosesRound, Exec, RoundsClosed;
    RoundsLeft(c, w, m, events, slot, count, start);
    var closed := RoundsClosed(c, w, m, events, slot);
    EventRounds(c, w, Exec(c, w, m, events).m, StepEvent, slot, count - closed, start);
  }
}

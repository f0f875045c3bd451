/** Every run ends through its loop counters alone. A run retires fewer instructions than
    a bound that depends on the range and the loop limit of its entry only, whatever the
    program, the data and the delays: a repetition lowers the count of its loop, and every
    other instruction moves on in an order in which a loop's count weighs less than
    whatever opens the loop again. */
module LoopBound {
  import opened Common
  import opened Arithmetic
  import opened Isa
  import opened Memory
  import opened Transport
  import opened Machine
  import Budget
  import CF = ControlFlow
  import Progress
  import Sequencer
  import Soundness

  // ---------------------------------------------------------------- The measure

  /** What a control instruction can leave: return addresses behind some instruction and
      active loops whose count is in range and whose start follows an instruction that
      names their slot. */
  predicate Placed(c: Config, core: Core)
    requires c.Valid()
  {
    && c.InRange(core.pc) && |core.stack| <= 4
    && (forall k :: 0 <= k < |core.stack| ==> 0 <= core.stack[k] <= c.entry.lastPc + 1)
    && (forall slot :: slot in core.loops ==>
          && 1 <= core.loops[slot].0 <= c.entry.maxLoopCount
          && c.InRange(core.loops[slot].1 - 1) && SlotAt(c, core.loops[slot].1 - 1) == slot)
  }

  function SlotAt(c: Config, pc: int): nat
    requires c.Valid() && c.InRange(pc)
  {
    c.program[pc].aux % 4
  }

  /** The rounds left of the loop whose body starts at `start`. */
  function RoundsLeft(c: Config, core: Core, start: int): nat
    requires c.Valid()
  {
    if c.InRange(start - 1) && SlotAt(c, start - 1) in core.loops && core.loops[SlotAt(c, start - 1)].1 == start
    then core.loops[SlotAt(c, start - 1)].0
    else 0
  }

  const WIDTH: nat := 6

  /** For every address `s` the return addresses and the program counter, none of them
      counted beyond `s`, and then the rounds made of the loop that starts at `s`. */
  function Item(c: Config, core: Core, s: nat, j: nat): int
    requires c.Valid()
  {
    if j < Progress.POSITIONS then Min(Progress.Digit(Soundness.View(c), Soundness.Abstract(core), j), s)
    else c.entry.maxLoopCount - RoundsLeft(c, core, s)
  }

  function Addresses(c: Config): nat { c.entry.lastPc + 3 }

  function Items(c: Config, core: Core): (d: seq<int>)
    requires c.Valid()
    ensures |d| == WIDTH * Addresses(c)
  {
    seq(WIDTH * Addresses(c), k requires 0 <= k => Item(c, core, k / WIDTH, k % WIDTH))
  }

  function Radix(c: Config): nat { c.entry.lastPc + c.entry.maxLoopCount + 4 }

  function Height(c: Config, core: Core): int
    requires c.Valid()
  {
    Progress.Number(Items(c, core), Radix(c))
  }

  /** The bound: it knows nothing of the retirement budget. */
  function Bound(c: Config): nat { Progress.Power(Radix(c), WIDTH * Addresses(c)) }

  lemma ItemsAreDigits(c: Config, core: Core)
    requires c.Valid() && Placed(c, core)
    ensures Progress.AreDigits(Items(c, core), Radix(c))
  {
  }

  lemma HeightBounds(c: Config, core: Core)
    requires c.Valid() && Placed(c, core)
    ensures 0 <= Height(c, core) < Bound(c)
  {
    hide Placed, Items;
    ItemsAreDigits(c, core);
    Progress.NumberBound(Items(c, core), Radix(c));
  }

  /** The first item that differs decides. */
  lemma FirstDifference(c: Config, a: Core, b: Core, s: nat, j: nat)
    requires c.Valid() && Placed(c, a) && Placed(c, b) && s < Addresses(c) && j < WIDTH
    requires forall r, k :: 0 <= r <= s && 0 <= k < WIDTH && (r < s || k < j) ==> Item(c, a, r, k) == Item(c, b, r, k)
    requires Item(c, a, s, j) < Item(c, b, s, j)
    ensures Height(c, a) < Height(c, b)
  {
    hide Placed, Item;
    ItemsAreDigits(c, a);
    ItemsAreDigits(c, b);
    var d, e, k := Items(c, a), Items(c, b), WIDTH * s + j;
    forall n | 0 <= n < k
      ensures d[n] == e[n]
    {
      assert n / WIDTH < s || n % WIDTH < j;
    }
    assert d[..k] == e[..k];
    assert k / WIDTH == s && k % WIDTH == j;
    Progress.NumberGrows(d, e, Radix(c), k);
  }

  // ---------------------------------------------------------------- Moves

  /** Falling through, jumping, calling or returning. */
  predicate Moves(a: Core, b: Core) {
    || (b.stack == a.stack && a.pc < b.pc)
    || (b.stack == a.stack + [a.pc + 1] && a.pc < b.pc)
    || (a.stack == b.stack + [b.pc])
  }

  /** Nothing changes below the next address, and there the place of the program counter
      is the first to grow. */
  lemma MovesClimb(c: Config, a: Core, b: Core, s: nat, j: nat)
    requires c.Valid() && Placed(c, a) && Placed(c, b) && Moves(a, b) && j < Progress.POSITIONS
    ensures s <= a.pc || (s == a.pc + 1 && j < |a.stack|) ==> Item(c, a, s, j) == Item(c, b, s, j)
    ensures s == a.pc + 1 && j == |a.stack| ==> Item(c, a, s, j) < Item(c, b, s, j)
  {
    assert a.stack == b.stack + [b.pc] ==> |a.stack| == |b.stack| + 1 && a.stack[|b.stack|] == b.pc;
  }

  /** A move after which no loop that starts at or below `a.pc` has changed. */
  lemma MoveHigher(c: Config, a: Core, b: Core)
    requires c.Valid() && Placed(c, a) && Placed(c, b) && Moves(a, b)
    requires forall s :: 0 <= s <= a.pc ==> RoundsLeft(c, a, s) == RoundsLeft(c, b, s)
    ensures Height(c, a) < Height(c, b)
  {
    hide Placed, Moves, RoundsLeft, Progress.Digit;
    var s, j := a.pc + 1, |a.stack|;
    assert c.InRange(a.pc) && j <= 4 by { PlacedBasics(c, a); }
    forall r, k | 0 <= r <= s && 0 <= k < WIDTH && (r < s || k < j)
      ensures Item(c, a, r, k) == Item(c, b, r, k)
    {
      if k < Progress.POSITIONS {
        MovesClimb(c, a, b, r, k);
      }
    }
    MovesClimb(c, a, b, s, j);
    FirstDifference(c, a, b, s, j);
  }

  lemma PlacedBasics(c: Config, a: Core)
    requires c.Valid() && Placed(c, a)
    ensures c.InRange(a.pc) && |a.stack| <= 4
  {
  }

  /** A loop that starts at or below the program counter has one round less. */
  lemma RoundHigher(c: Config, a: Core, b: Core, start: nat)
    requires c.Valid() && Placed(c, a) && Placed(c, b) && a.stack == b.stack && start <= a.pc && start <= b.pc
    requires forall s :: 0 <= s < start ==> RoundsLeft(c, a, s) == RoundsLeft(c, b, s)
    requires RoundsLeft(c, b, start) < RoundsLeft(c, a, start)
    ensures Height(c, a) < Height(c, b)
  {
    PlacedBasics(c, a);
    FirstDifference(c, a, b, start, Progress.POSITIONS);
  }

  // ---------------------------------------------------------------- Control instructions

  lemma SetupHigher(c: Config, a: Core, b: Core, count: nat)
    requires c.Valid() && Placed(c, a) && a.pc < c.entry.lastPc && 1 <= count <= c.entry.maxLoopCount
    requires SlotAt(c, a.pc) !in a.loops
    requires b == a.(pc := a.pc + 1, loops := a.loops[SlotAt(c, a.pc) := (count, a.pc + 1)])
    ensures Placed(c, b) && Height(c, a) < Height(c, b)
  {
    hide Height, Item;
    MoveHigher(c, a, b);
  }

  lemma RepeatHigher(c: Config, a: Core, b: Core, slot: nat)
    requires c.Valid() && Placed(c, a) && slot in a.loops && a.loops[slot].0 > 1 && a.loops[slot].1 <= a.pc + 1
    requires a.loops[slot].1 <= c.entry.lastPc
    requires b == a.(pc := a.loops[slot].1, loops := a.loops[slot := (a.loops[slot].0 - 1, a.loops[slot].1)])
    ensures Placed(c, b) && Height(c, a) < Height(c, b)
  {
    hide Height, Item;
    var start := a.loops[slot].1;
    if start <= a.pc {
      RoundHigher(c, a, b, start);
    } else {
      MoveHigher(c, a, b);
    }
  }

  lemma ExitHigher(c: Config, a: Core, b: Core, slot: nat)
    requires c.Valid() && Placed(c, a) && slot in a.loops && a.pc < c.entry.lastPc
    requires b == a.(pc := a.pc + 1, loops := a.loops - {slot})
    ensures Placed(c, b) && Height(c, a) < Height(c, b)
  {
    hide Height, Item;
    var start := a.loops[slot].1;
    if start <= a.pc {
      RoundHigher(c, a, b, start);
    } else {
      MoveHigher(c, a, b);
    }
  }

  lemma MoveAlone(c: Config, a: Core, b: Core)
    requires c.Valid() && Placed(c, a) && Moves(a, b) && a.loops == b.loops && c.InRange(b.pc)
    requires |b.stack| <= 4
    ensures Placed(c, b) && Height(c, a) < Height(c, b)
  {
    hide Height, Item;
    assert forall k :: 0 <= k < |b.stack| ==> b.stack[k] == a.pc + 1 || (k < |a.stack| && b.stack[k] == a.stack[k]);
    MoveHigher(c, a, b);
  }

  /** Every control instruction that goes on inside the range climbs. */
  lemma ControlHigher(c: Config, core: Core, drained: bool, ready: bool)
    requires c.Valid() && Placed(c, core) && c.InRange(core.pc) && c.program[core.pc].cls == CONTROL
    ensures var effect := ControlStep(c.entry, core, c.program[core.pc], drained, ready);
      effect.Goto? && c.InRange(effect.pc) ==>
        var next := effect.core.(pc := effect.pc);
        Placed(c, next) && Height(c, core) < Height(c, next)
  {
    hide Height, Placed, Moves;
    var i := c.program[core.pc];
    var effect := ControlStep(c.entry, core, i, drained, ready);
    if effect.Goto? && c.InRange(effect.pc) {
      var next := effect.core.(pc := effect.pc);
      var slot := i.aux % 4;
      PlacedBasics(c, core);
      if i.opcode == LOOP_SETUP {
        SetupHigher(c, core, next, Reg(core.registers, i.src0) % 0x1_0000);
      } else if i.opcode == LOOP_BACK {
        if core.loops[slot].0 > 1 {
          RepeatHigher(c, core, next, slot);
        } else {
          ExitHigher(c, core, next, slot);
        }
      } else {
        BranchMoves(c.entry, core, i, drained, ready);
        MoveAlone(c, core, next);
      }
    }
  }

  lemma BranchMoves(e: Entry, core: Core, i: Instruction, drained: bool, ready: bool)
    requires i.opcode != LOOP_SETUP && i.opcode != LOOP_BACK && |core.stack| <= 4
    ensures var effect := ControlStep(e, core, i, drained, ready);
      effect.Goto? ==>
        var next := effect.core.(pc := effect.pc);
        Moves(core, next) && next.loops == core.loops && |next.stack| <= 4
  {
  }

  // ---------------------------------------------------------------- One event

  /** The registers, the flags and the retirement counter do not count. */
  lemma SamePlace(c: Config, a: Core, b: Core)
    requires c.Valid() && Placed(c, a) && b.pc == a.pc && b.stack == a.stack && b.loops == a.loops
    ensures Placed(c, b) && Height(c, b) == Height(c, a)
  {
    hide Progress.Number;
    assert Items(c, a) == Items(c, b);
  }

  /** A running machine either retires one instruction and climbs, or stays where it is
      and pays with its watchdog. */
  ghost predicate Climbs(c: Config, w: Timing, before: Machine, o: Outcome)
    requires c.Valid()
  {
    o.Next? ==>
      && Placed(c, o.m.core) && 0 <= o.m.watchdog < Max(w.timeout, 1)
      && if o.m.core.retired == before.core.retired then
           Height(c, o.m.core) == Height(c, before.core) && o.m.watchdog > before.watchdog
         else
           o.m.core.retired == before.core.retired + 1 && Height(c, o.m.core) > Height(c, before.core)
  }

  ghost predicate Ready(c: Config, m: Machine)
    requires c.Valid()
  {
    Placed(c, m.core) && m.watchdog >= 0
  }

  lemma StallClimbs(c: Config, w: Timing, m: Machine)
    requires c.Valid() && Ready(c, m)
    ensures Climbs(c, w, m, Stall(w, m))
  {
    hide Height, Placed;
    SamePlace(c, m.core, Stall(w, m).m.core);
  }

  /** Falling through with other registers. */
  lemma AdvanceClimbs(c: Config, w: Timing, m: Machine, m': Machine)
    requires c.Valid() && Ready(c, m) && m'.core == m.core.(registers := m'.core.registers)
    ensures Climbs(c, w, m, Advance(c, m', m.core.pc + 1))
  {
    hide Height, Placed;
    if c.InRange(m.core.pc + 1) {
      var next := m.core.(pc := m.core.pc + 1);
      PlacedBasics(c, m.core);
      MoveAlone(c, m.core, next);
      SamePlace(c, next, Advance(c, m', m.core.pc + 1).m.core);
    }
  }

  lemma ControlClimbs(c: Config, w: Timing, m: Machine)
    requires c.Valid() && Ready(c, m) && c.InRange(m.core.pc) && c.program[m.core.pc].cls == CONTROL
    ensures Climbs(c, w, m, Execute(c, w, m, c.program[m.core.pc]))
  {
    hide Height, Placed, ControlStep, WaitReady;
    var i := c.program[m.core.pc];
    var drained := m.transport.None? || m.transport.value.pending == [];
    var ready := WaitReady(i, m.prims, m.transport);
    ControlHigher(c, m.core, drained, ready);
    Sequencer.ControlKeepsCounters(c.entry, m.core, i, drained, ready);
    StallClimbs(c, w, m);
    var effect := ControlStep(c.entry, m.core, i, drained, ready);
    if effect.Goto? && c.InRange(effect.pc) {
      SamePlace(c, effect.core.(pc := effect.pc), Execute(c, w, m, i).m.core);
    }
  }

  lemma TransportClimbs(c: Config, w: Timing, m: Machine, i: Instruction)
    requires c.Valid() && Ready(c, m)
    ensures Climbs(c, w, m, TransportStep(c, w, m, i))
  {
    hide Climbs, Ready, IssueCommand, TickTransport, Advance, Stall;
    StallClimbs(c, w, m);
    if m.transport.Some? && m.prims.Some? {
      var issue := IssueCommand(c.settings, m.transport.value, w.latency, i, m.core.registers, c.entry, m.prims.value);
      if issue.Accepted? {
        var issued := m.(transport := Some(issue.transport));
        Sequencer.TransportTickKeepsCounters(c, issued);
        AdvanceClimbs(c, w, m, issued.(transportDst := issued.transportDst + {i.dst}));
        AdvanceClimbs(c, w, m, TickTransport(c, issued));
      }
    }
    TrapClimbs(c, w, m, TransportStep(c, w, m, i));
  }

  lemma TrapClimbs(c: Config, w: Timing, m: Machine, o: Outcome)
    requires c.Valid()
    ensures !o.Next? ==> Climbs(c, w, m, o)
  {
  }

  lemma PrimitiveClimbs(c: Config, w: Timing, m: Machine, i: Instruction)
    requires c.Valid() && Ready(c, m)
    ensures Climbs(c, w, m, PrimitiveStep(c, w, m, i))
  {
    hide Climbs, Ready, Cycles, Buffered, Starved, FifoBlocked, Advance, Stall, Invoke, ApplyWrites;
    TrapClimbs(c, w, m, PrimitiveStep(c, w, m, i));
    if m.prims.Some? && !FifoBlocked(i, m.prims.value) {
      var p := Buffered(i, m.core.registers, m.prims.value);
      BufferedClimbs(c, w, m, p);
      if !Starved(i, m.core.registers, p) {
        var idle := Max(w.cycles(i, m.core.registers, p) - 1, 0);
        match Invoke(c, m.core.registers, p, i)
        case Faulted(p', fault) =>
          var late := m.(prims := Some(p'.(kernelDone := false)),
                         kernel := m.kernel.(result := Some(map[]), pendingFault := Some(fault),
                           pendingDst := Some(i.dst), cycles := 0));
          AdvanceClimbs(c, w, m, CompleteKernel(late));
        case Executed(p', writes) =>
          if i.cls == KERNEL {
            var issued := m.(prims := Some(p'.(kernelDone := false)),
                             kernel := m.kernel.(result := Some(writes), pendingDst := Some(i.dst), cycles := idle));
            AdvanceClimbs(c, w, m, if idle == 0 then CompleteKernel(issued) else issued);
          } else {
            var written := m.(prims := Some(p'), core := m.core.(registers := ApplyWrites(m.core.registers, writes)));
            Budget.CyclesKeepRetired(c, w, written, idle);
            AdvanceClimbs(c, w, m, Cycles(c, w, written, idle).m);
          }
      }
    }
    StallClimbs(c, w, m);
  }

  /** A stall after more bits were buffered. */
  lemma BufferedClimbs(c: Config, w: Timing, m: Machine, p: Prims)
    requires c.Valid() && Ready(c, m)
    ensures Climbs(c, w, m, Stall(w, m.(prims := Some(p))))
  {
    hide Height, Placed;
    SamePlace(c, m.core, m.core);
  }

  lemma ExecuteClimbs(c: Config, w: Timing, m: Machine)
    requires c.Valid() && Ready(c, m) && c.InRange(m.core.pc)
    ensures Climbs(c, w, m, Execute(c, w, m, c.program[m.core.pc]))
  {
    hide Climbs, Ready, TransportStep, PrimitiveStep, ControlStep, WaitReady, Advance, Stall, Alu;
    var i := c.program[m.core.pc];
    if i.cls == CONTROL {
      ControlClimbs(c, w, m);
    } else if i.cls == SCALAR {
      ScalarClimbs(c, w, m, i);
    } else if i.cls == TRANSPORT {
      TransportClimbs(c, w, m, i);
    } else {
      PrimitiveClimbs(c, w, m, i);
    }
  }

  lemma ScalarClimbs(c: Config, w: Timing, m: Machine, i: Instruction)
    requires c.Valid() && Ready(c, m)
    ensures Climbs(c, w, m, Advance(c, m.(core := ScalarStep(m.core, i)), m.core.pc + 1))
  {
    hide Height, Placed, Alu;
    if c.InRange(m.core.pc + 1) {
      var next := m.core.(pc := m.core.pc + 1);
      PlacedBasics(c, m.core);
      MoveAlone(c, m.core, next);
      SamePlace(c, next, Advance(c, m.(core := ScalarStep(m.core, i)), m.core.pc + 1).m.core);
    }
  }

  lemma SkipClimbs(c: Config, w: Timing, m: Machine)
    requires c.Valid() && Ready(c, m) && m.core.pc < c.entry.lastPc
    ensures Climbs(c, w, m, Next(Retire(m).(core := m.core.(retired := m.core.retired + 1, pc := m.core.pc + 1))))
  {
    hide Height, Placed;
    var next := m.core.(pc := m.core.pc + 1);
    PlacedBasics(c, m.core);
    MoveAlone(c, m.core, next);
    SamePlace(c, next, m.core.(retired := m.core.retired + 1, pc := m.core.pc + 1));
  }

  lemma AdmitClimbs(c: Config, w: Timing, m: Machine)
    requires c.Valid() && Ready(c, m) && c.InRange(m.core.pc)
    ensures Climbs(c, w, m, Admit(c, w, m, c.program[m.core.pc]))
  {
    hide Climbs, Ready, Execute, Stall, PredicateHolds, PendingDependency, Retire;
    TrapClimbs(c, w, m, Admit(c, w, m, c.program[m.core.pc]));
    StallClimbs(c, w, m);
    ExecuteClimbs(c, w, m);
    if m.core.pc < c.entry.lastPc {
      SkipClimbs(c, w, m);
    }
  }

  lemma HappenClimbs(c: Config, w: Timing, m: Machine, event: Event)
    requires c.Valid() && Ready(c, m)
    ensures Climbs(c, w, m, Happen(c, w, m, event))
  {
    hide Height, Placed, Ticks, Admit, Stall, ValidInstruction;
    var m1 := Ticks(c, m);
    Sequencer.TicksKeepCounters(c, m);
    SamePlace(c, m.core, m1.core);
    StallClimbs(c, w, m1);
    if c.InRange(m.core.pc) {
      AdmitClimbs(c, w, m1);
    }
  }

  // ---------------------------------------------------------------- Runs

  /** What the run has done so far: it has retired no more than it has climbed, and every
      other event is paid for by a retirement or by the running watchdog. */
  lemma {:induction false} RunClimbs(c: Config, w: Timing, m: Machine, events: seq<Event>)
    requires c.Valid() && Soundness.EngineReasons(c) && Soundness.FaultsKnown(m)
    requires Ready(c, m) && m.watchdog < Max(w.timeout, 1)
    ensures var o := Exec(c, w, m, events);
      && o.m.core.retired - m.core.retired <= Bound(c) - Height(c, m.core)
      && (o.Next? ==>
            && Ready(c, o.m) && o.m.watchdog < Max(w.timeout, 1) && m.core.retired <= o.m.core.retired
            && o.m.core.retired - m.core.retired <= Height(c, o.m.core) - Height(c, m.core)
            && |events| <= (o.m.core.retired - m.core.retired) * Max(w.timeout, 1) + o.m.watchdog - m.watchdog)
    decreases |events|
  {
    hide Happen, Height, Bound, Placed;
    HeightBounds(c, m.core);
    if events == [] {
    } else {
      var o := Happen(c, w, m, events[0]);
      HappenClimbs(c, w, m, events[0]);
      Budget.EventOneMore(c, w, m, events[0]);
      Budget.EventKnown(c, w, m, events[0]);
      if o.Next? {
        RunClimbs(c, w, o.m, events[1..]);
        var last := Exec(c, w, m, events).m.core.retired;
        Distribute(last - o.m.core.retired, o.m.core.retired - m.core.retired, Max(w.timeout, 1));
      }
    }
  }

  lemma BootReady(c: Config, memory: Option<Memory>, transport: bool)
    requires c.Valid()
    ensures var m := Boot(c, memory, transport);
      Ready(c, m) && m.watchdog == 0 && m.core.retired == 0 && Soundness.FaultsKnown(m)
  {
  }

  /** No run retires more instructions than the bound, whatever its retirement budget, and
      a run with as many events as the bound allows cycles is over. */
  lemma RunsEnd(c: Config, w: Timing, memory: Option<Memory>, transport: bool, events: seq<Event>)
    requires c.Valid() && Soundness.EngineReasons(c)
    ensures var boot := Boot(c, memory, transport);
      && Budget.Retirements(c, w, boot, events) <= Bound(c)
      && (|events| >= Bound(c) * Max(w.timeout, 1) ==> !Exec(c, w, boot, events).Next?)
  {
    hide Exec, Height, Bound, Placed, Budget.Retirements;
    var boot := Boot(c, memory, transport);
    var o := Exec(c, w, boot, events);
    BootReady(c, memory, transport);
    HeightBounds(c, boot.core);
    RunClimbs(c, w, boot, events);
    Budget.RunBudget(c, w, memory, transport, events);
    if o.Next? {
      HeightBounds(c, o.m.core);
      MulMonotone(o.m.core.retired + 1, Bound(c), Max(w.timeout, 1));
      Distribute(o.m.core.retired, 1, Max(w.timeout, 1));
    }
  }

  /** With a budget of at least the bound, a run of an accepted program whose loop counts
      are legal ends, and neither the budget nor the control flow ends it. */
  lemma EndsWithoutBudget(c: Config, w: Timing, memory: Option<Memory>, transport: bool, events: seq<Event>)
    requires Soundness.Verified(c) && c.entry.maxRetired > Bound(c)
    requires |events| >= Bound(c) * Max(w.timeout, 1)
    ensures var o := Exec(c, w, Boot(c, memory, transport), events);
      && !o.Next?
      && (o.Trap? ==> o.reason !in {2, 3, 8} && (o.reason == 4 ==> Soundness.CountRejected(c, o.m)))
  {
    hide Exec, Bound, Budget.Retirements, CF.Accepts;
    RunsEnd(c, w, memory, transport, events);
    Soundness.VerifierSound(c, w, memory, transport, events);
    Budget.RunBudget(c, w, memory, transport, events);
  }
}

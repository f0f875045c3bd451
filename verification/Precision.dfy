/** The verifier is precise: its loop pairing accepts exactly structured programs, every
    successor of an abstract state is a step some machine in that state takes, and in every
    state it calls unsafe some machine traps. */
module Precision {
  import opened Common
  import opened Isa
  import opened Memory
  import opened Reservoir
  import opened Transport
  import opened Machine
  import opened Soundness
  import opened Steps
  import CF = ControlFlow
  import Progress

  /** The state comes to an instruction that may stand in an image, within a legal entry whose
      loops are paired. */
  ghost predicate Posed(c: Config, s: CF.State) {
    && c.Valid() && CF.WellPaired(View(c)) && 1 <= c.entry.maxLoopCount && 1 <= c.entry.maxRetired
    && (c.InRange(s.pc) ==> ValidInstruction(c.program[s.pc], c.target, c.abi) && c.program[s.pc].src0 < 16)
  }

  // ---------------------------------------------------------------- Loop structure

  /** The loop instruction at `pc` belongs to this slot, counted modulo four. */
  predicate UsesSlot(c: CF.Context, pc: int, slot: nat)
    requires c.Valid() && c.InRange(pc)
  {
    c.program[pc].cls == CONTROL && c.program[pc].opcode in {LOOP_SETUP, LOOP_BACK} && c.program[pc].aux % 4 == slot % 4
  }

  /** The LOOP_SETUP and the LOOP_BACK are consecutive uses of one slot, and the way back leads
      behind the setup. */
  ghost predicate IsLoop(c: CF.Context, setup: int, back: int)
    requires c.Valid()
  {
    && c.InRange(setup) && c.InRange(back) && setup < back
    && c.program[setup].cls == CONTROL && c.program[setup].opcode == LOOP_SETUP
    && c.program[back].cls == CONTROL && c.program[back].opcode == LOOP_BACK
    && UsesSlot(c, setup, c.program[back].aux) && c.program[back].immediate == back - setup
    && forall q :: setup < q < back ==> !UsesSlot(c, q, c.program[back].aux)
  }

  /** Two loops lie one behind the other, or the body of one inside the body of the other. */
  predicate Nested(setup: int, back: int, setup': int, back': int) {
    back <= setup' || back' <= setup || (setup <= setup' && back' <= back) || (setup' <= setup && back <= back')
  }

  /** Control instructions are known, jumps and calls stay in the range, every loop instruction
      is part of a loop, and loops are nested. */
  ghost predicate Structured(c: CF.Context)
    requires c.Valid()
  {
    Placed(c) && forall setup, back, setup', back' :: IsLoop(c, setup, back) && IsLoop(c, setup', back') ==>
      Nested(setup, back, setup', back')
  }

  ghost predicate Placed(c: CF.Context)
    requires c.Valid()
  {
    forall pc :: c.InRange(pc) && c.program[pc].cls == CONTROL ==> InPlace(c, pc)
  }

  ghost predicate InPlace(c: CF.Context, pc: int)
    requires c.Valid() && c.InRange(pc)
  {
    var i := c.program[pc];
    && i.opcode <= 8 && (i.opcode in {JUMP_FWD, CALL_FWD} ==> c.InRange(pc + 1 + i.immediate))
    && (i.opcode == LOOP_BACK ==> exists setup :: IsLoop(c, setup, pc))
    && (i.opcode == LOOP_SETUP ==> exists back :: IsLoop(c, pc, back))
  }

  lemma LoopIs(c: CF.Context, setup: int, back: int)
    requires c.Valid()
    ensures IsLoop(c, setup, back) <==> CF.Brackets(c, setup, back) && CF.LoopStart(c, back) == setup + 1
  {
    forall q | c.InRange(q)
      ensures c.InRange(back) ==> (UsesSlot(c, q, c.program[back].aux) <==> CF.LoopOp(c, q, c.Slot(back)))
    {
    }
    if IsLoop(c, setup, back) {
      assert CF.Quiet(c, setup + 1, back, c.Slot(back));
    } else if CF.Brackets(c, setup, back) && CF.LoopStart(c, back) == setup + 1 {
      forall q | setup < q < back
        ensures !UsesSlot(c, q, c.program[back].aux)
      {
        assert !CF.LoopOp(c, q, c.Slot(back));
      }
    }
  }

  /** A loop that closes at `back` is the only one. */
  lemma OneSetup(c: CF.Context, a: int, b: int, back: int)
    requires c.Valid() && CF.Brackets(c, a, back) && CF.Brackets(c, b, back)
    ensures a == b
  {
    assert CF.LoopOp(c, a, c.Slot(back)) && CF.LoopOp(c, b, c.Slot(back));
  }

  lemma PlacedIff(c: CF.Context)
    requires c.Valid()
    ensures (forall pc :: c.InRange(pc) ==> CF.WellPlaced(c, pc)) <==> Placed(c)
  {
    hide IsLoop, CF.Brackets, InPlace, CF.WellPlaced;
    if forall pc :: c.InRange(pc) ==> CF.WellPlaced(c, pc) {
      forall pc | c.InRange(pc) && c.program[pc].cls == CONTROL
        ensures InPlace(c, pc)
      {
        InPlaceAt(c, pc);
      }
    } else if Placed(c) {
      forall pc | c.InRange(pc)
        ensures CF.WellPlaced(c, pc)
      {
        PlacedAt(c, pc);
      }
    }
  }

  lemma InPlaceAt(c: CF.Context, pc: int)
    requires c.Valid() && c.InRange(pc) && c.program[pc].cls == CONTROL
    requires forall q :: c.InRange(q) ==> CF.WellPlaced(c, q)
    ensures InPlace(c, pc)
  {
    hide IsLoop, CF.Brackets;
    assert CF.WellPlaced(c, pc);
    if c.program[pc].opcode == LOOP_BACK {
      BackOf(c, CF.LoopStart(c, pc) - 1, pc);
    } else if c.program[pc].opcode == LOOP_SETUP {
      var back :| pc < back < c.entry.lastPc + 1 && CF.Brackets(c, pc, back);
      BackOf(c, pc, back);
    }
  }

  lemma BackOf(c: CF.Context, setup: int, back: int)
    requires c.Valid() && CF.Brackets(c, setup, back) && CF.WellPlaced(c, back)
    ensures IsLoop(c, setup, back)
  {
    OneSetup(c, setup, CF.LoopStart(c, back) - 1, back);
    LoopIs(c, setup, back);
  }

  lemma PlacedAt(c: CF.Context, pc: int)
    requires c.Valid() && Placed(c) && c.InRange(pc)
    ensures CF.WellPlaced(c, pc)
  {
    hide IsLoop;
    var i := c.program[pc];
    assert i.cls == CONTROL ==> InPlace(c, pc);
    if i.cls == CONTROL && i.opcode == LOOP_BACK {
      var setup :| IsLoop(c, setup, pc);
      LoopIs(c, setup, pc);
    } else if i.cls == CONTROL && i.opcode == LOOP_SETUP {
      var back :| IsLoop(c, pc, back);
      LoopIs(c, pc, back);
      assert CF.Brackets(c, pc, back);
    }
  }

  /** The pairing of the verifier succeeds exactly on structured programs. */
  lemma PairedIff(c: CF.Context)
    requires c.Valid()
    ensures CF.WellPaired(c) <==> Structured(c)
  {
    hide IsLoop, CF.WellPlaced, Placed;
    PlacedIff(c);
    if CF.WellPaired(c) {
      forall setup, back, setup', back' | IsLoop(c, setup, back) && IsLoop(c, setup', back')
        ensures Nested(setup, back, setup', back')
      {
        LoopIs(c, setup, back);
        LoopIs(c, setup', back');
        assert !CF.Crosses(CF.Interval(c, back), CF.Interval(c, back'));
      }
    } else if Structured(c) {
      forall a, b | c.IsControl(a, LOOP_BACK) && c.IsControl(b, LOOP_BACK)
        ensures !CF.Crosses(CF.Interval(c, a), CF.Interval(c, b))
      {
        LoopAt(c, a);
        LoopAt(c, b);
        assert Nested(CF.LoopStart(c, a) - 1, a, CF.LoopStart(c, b) - 1, b);
      }
    }
  }

  lemma LoopAt(c: CF.Context, back: int)
    requires c.Valid() && Placed(c) && c.IsControl(back, LOOP_BACK)
    ensures IsLoop(c, CF.LoopStart(c, back) - 1, back)
  {
    hide IsLoop;
    assert InPlace(c, back);
    var setup :| IsLoop(c, setup, back);
    LoopIs(c, setup, back);
  }

  /** The verifier accepts exactly the structured programs without a reachable unsafe state
      whose reachable states are at most 64 for every instruction an image may hold. */
  lemma AcceptedIff(c: CF.Context)
    requires c.Valid()
    ensures CF.Accepts(c) <==>
      && Structured(c) && (forall s :: CF.Reachable(c, s) ==> CF.Explore(c, s).Visit?)
      && exists states: set<CF.State> ::
        CF.CoversReachable(c, states) && |states| <= (if c.abi.V1? then 131_072 else 262_144)
  {
    hide CF.Accepts, CF.WellPaired, Structured, CF.Reachable, CF.Explore, CF.CoversReachable;
    PairedIff(c);
    Progress.TerminalTestRedundant(c);
    assert CF.ProofLimit(c.abi) == if c.abi.V1? then 131_072 else 262_144;
  }

  // ---------------------------------------------------------------- Witnesses

  /** Wires that make every predicate they reach answer `yes`. */
  function Wires(yes: bool): Timing {
    Timing(PredicateInputs(yes, yes, yes, yes, yes), 2, 1, (i, r, p) => 1)
  }

  /** A machine in the abstract state, with nothing in flight, `count` rounds left in every
      loop, flags that answer `yes` to the predicate `k`, and what every WAIT waits for. */
  function Witness(s: CF.State, k: nat, yes: bool, count: nat, engine: bool): Machine {
    var memory := Memory(seq(LOCAL_DATA_BYTES, _ => 0), {}, 0, false);
    Machine(
      Core(s.pc, seq(16, _ => 1), (k == 1) == yes, (k == 3) == yes, (k == 5) == yes, 0, s.stack,
           map slot | slot in s.loops :: (count, s.loops[slot])),
      0, if engine then Some(Prims(memory, EMPTY.(words := [0]), [], true, None)) else None,
      if engine then Some(IDLE) else None, NO_KERNEL, {}, None)
  }

  lemma WitnessAbstracts(s: CF.State, k: nat, yes: bool, count: nat, engine: bool)
    ensures var m := Witness(s, k, yes, count, engine); Abstract(m.core) == s && Calm(m)
  {
  }

  lemma WitnessAnswers(c: Config, s: CF.State, k: nat, yes: bool, count: nat)
    requires k <= 11
    ensures PredicateHolds(c, Wires(yes), Witness(s, k, yes, count, false), k) <==> k == 0 || yes
    ensures PredicateHolds(c, Wires(yes), Witness(s, 0, yes, count, true), 0)
  {
  }

  /** The step takes the machine along the edge; an edge out of the range traps. */
  ghost predicate Takes(c: Config, w: Timing, m: Machine, e: CF.Successor)
    requires c.Valid()
  {
    var o := Step(c, w, m);
    if c.InRange(e.state.pc) then o.Next? && Abstract(o.m.core) == e.state
    else o.Trap? && o.reason in {2, 4}
  }

  /** Every edge the verifier explores from an instruction of the first two classes, and every
      edge of a false predicate, is taken by some machine in the state. */
  lemma EdgesAreReal(c: Config, s: CF.State, e: CF.Successor) returns (w: Timing, m: Machine)
    requires Posed(c, s) && CF.Leads(View(c), s, e)
    requires e.kind == CF.PredicateFalse || c.program[s.pc].cls <= SCALAR
    ensures Abstract(m.core) == s && Takes(c, w, m, e)
  {
    hide Ticks, Execute, PredicateHolds, ValidInstruction, Step;
    var i := c.program[s.pc];
    if e.kind == CF.PredicateFalse {
      w, m := Wires(false), Witness(s, i.predicate_, false, 1, false);
      PredicateSmall(c, s);
      WitnessAbstracts(s, i.predicate_, false, 1, false);
      WitnessAnswers(c, s, i.predicate_, false, 1);
      CalmStep(c, w, m);
    } else {
      var wait := i.cls == CONTROL && i.opcode == WAIT;
      var count := if e.kind == CF.LoopRepeat then 2 else 1;
      w, m := Wires(true), Witness(s, i.predicate_, true, count, wait);
      PredicateSmall(c, s);
      WitnessAbstracts(s, i.predicate_, true, count, wait);
      WitnessAnswers(c, s, i.predicate_, true, count);
      CalmStep(c, w, m);
      TrueEdge(c, s, e, w, m);
    }
  }

  lemma PredicateSmall(c: Config, s: CF.State)
    requires Posed(c, s) && c.InRange(s.pc)
    ensures var i := c.program[s.pc];
      i.predicate_ <= 11 && (i.cls == CONTROL && i.opcode == WAIT ==> i.predicate_ == 0 && i.aux <= 5)
  {
  }

  lemma TrueEdge(c: Config, s: CF.State, e: CF.Successor, w: Timing, m: Machine)
    requires Posed(c, s) && CF.Leads(View(c), s, e) && e.kind != CF.PredicateFalse && c.program[s.pc].cls <= SCALAR
    requires var i := c.program[s.pc];
      m == Witness(s, i.predicate_, true, if e.kind == CF.LoopRepeat then 2 else 1, i.cls == CONTROL
        && i.opcode == WAIT)
    requires Step(c, w, m) == Execute(c, w, m, c.program[s.pc])
    ensures Takes(c, w, m, e)
  {
    hide Ticks, Step, ValidInstruction, TransportStep, PrimitiveStep, ControlStep, ScalarStep, Witness, CF.WellPaired;
    assert c.InRange(s.pc);
    hide CF.Explore;
    var i := c.program[s.pc];
    WitnessAbstracts(s, i.predicate_, true, if e.kind == CF.LoopRepeat then 2 else 1, i.cls == CONTROL
      && i.opcode == WAIT);
    if i.cls == SCALAR {
      ScalarKeeps(m.core, i);
      FallsThrough(c, s, e);
    } else {
      var drained := m.transport.None? || m.transport.value.pending == [];
      if i.opcode == LOOP_SETUP {
        SetupFollows(c, s, e, drained);
      } else if i.opcode == LOOP_BACK {
        BackFollows(c, s, e, drained);
      } else {
        BranchFollows(c, s, e, drained);
      }
    }
  }

  lemma LoopInRange(c: Config, s: CF.State)
    requires Posed(c, s) && c.InRange(s.pc) && c.program[s.pc].cls == CONTROL && c.program[s.pc].opcode == LOOP_BACK
    ensures c.entry.firstPc <= s.pc + 1 - c.program[s.pc].immediate <= s.pc
  {
    hide ValidInstruction;
    assert CF.WellPlaced(View(c), s.pc);
  }

  lemma FallsThrough(c: Config, s: CF.State, e: CF.Successor)
    requires c.Valid() && CF.Leads(View(c), s, e) && c.program[s.pc].cls != CONTROL
    ensures e.state == s.(pc := s.pc + 1)
  {
  }

  /** The control effect on the witness is the edge. */
  ghost predicate Follows(c: Config, s: CF.State, e: CF.Successor, drained: bool)
    requires c.Valid() && c.InRange(s.pc)
  {
    var i := c.program[s.pc];
    var m := Witness(s, i.predicate_, true, if e.kind == CF.LoopRepeat then 2 else 1, i.opcode == WAIT);
    var effect := ControlStep(c.entry, m.core, i, drained, WaitReady(i, m.prims, m.transport));
    effect.Goto? && effect.pc == e.state.pc && Abstract(effect.core.(pc := effect.pc)) == e.state
  }

  lemma SetupFollows(c: Config, s: CF.State, e: CF.Successor, drained: bool)
    requires Posed(c, s) && CF.Leads(View(c), s, e) && e.kind != CF.PredicateFalse
    requires c.program[s.pc].cls == CONTROL && c.program[s.pc].opcode == LOOP_SETUP
    ensures Follows(c, s, e, drained)
  {
    hide ValidInstruction, CF.WellPaired;
    var i, slot := c.program[s.pc], c.program[s.pc].aux % 4;
    assert e.state == s.(pc := s.pc + 1, loops := s.loops[slot := s.pc + 1]);
    var m := Witness(s, i.predicate_, true, 1, false);
    hide CF.Leads;
    assert Reg(m.core.registers, i.src0) == 1;
    var core := m.core.(loops := m.core.loops[slot := (1, s.pc + 1)]);
    assert Abstract(core.(pc := s.pc + 1)).loops == e.state.loops;
  }

  lemma BackFollows(c: Config, s: CF.State, e: CF.Successor, drained: bool)
    requires Posed(c, s) && CF.Leads(View(c), s, e) && e.kind != CF.PredicateFalse
    requires c.program[s.pc].cls == CONTROL && c.program[s.pc].opcode == LOOP_BACK
    ensures Follows(c, s, e, drained)
  {
    hide ValidInstruction, CF.WellPaired;
    LoopInRange(c, s);
    var i, slot := c.program[s.pc], c.program[s.pc].aux % 4;
    assert slot in s.loops && s.loops[slot] == s.pc + 1 - i.immediate;
    if e.kind == CF.LoopRepeat {
      assert e.state == s.(pc := s.loops[slot]);
      var m := Witness(s, i.predicate_, true, 2, false);
      var core := m.core.(loops := m.core.loops[slot := (1, s.loops[slot])]);
      assert Abstract(core.(pc := e.state.pc)).loops == e.state.loops;
    } else {
      assert e.state == s.(pc := s.pc + 1, loops := s.loops - {slot});
      var m := Witness(s, i.predicate_, true, 1, false);
      var core := m.core.(loops := m.core.loops - {slot});
      assert Abstract(core.(pc := e.state.pc)).loops == e.state.loops;
    }
  }

  lemma BranchFollows(c: Config, s: CF.State, e: CF.Successor, drained: bool)
    requires Posed(c, s) && CF.Leads(View(c), s, e) && e.kind != CF.PredicateFalse
    requires c.program[s.pc].cls == CONTROL && c.program[s.pc].opcode !in {LOOP_SETUP, LOOP_BACK}
    ensures Follows(c, s, e, drained)
  {
    hide ValidInstruction, CF.WellPaired;
    PredicateSmall(c, s);
    var i := c.program[s.pc];
    WitnessAbstracts(s, i.predicate_, true, 1, i.opcode == WAIT);
    var m := Witness(s, i.predicate_, true, 1, i.opcode == WAIT);
    assert Abstract(m.core.(pc := e.state.pc, stack := e.state.stack)) == s.(pc := e.state.pc, stack := e.state.stack);
  }

  /** In every state the verifier calls unsafe some machine traps: outside the range, on the
      call stack or on a loop. */
  lemma UnsafeIsReal(c: Config, s: CF.State) returns (w: Timing, m: Machine)
    requires Posed(c, s) && CF.Explore(View(c), s).Unsafe?
    ensures Abstract(m.core) == s
    ensures var o := Step(c, w, m); o.Trap? && o.reason in {2, 3, 4}
  {
    hide Ticks, Execute, PredicateHolds, ValidInstruction, Step;
    w, m := Wires(true), Witness(s, 0, true, 1, false);
    WitnessAbstracts(s, 0, true, 1, false);
    if !c.InRange(s.pc) {
      LeavesRange(c, w, m);
    } else {
      var i := c.program[s.pc];
      m := Witness(s, i.predicate_, true, 1, false);
      PredicateSmall(c, s);
      WitnessAbstracts(s, i.predicate_, true, 1, false);
      WitnessAnswers(c, s, i.predicate_, true, 1);
      CalmStep(c, w, m);
      BadControl(c, s, w, m);
    }
  }

  lemma LeavesRange(c: Config, w: Timing, m: Machine)
    requires c.Valid() && !c.InRange(m.core.pc)
    ensures Step(c, w, m) == Trap(2, m)
  {
  }

  lemma BadControl(c: Config, s: CF.State, w: Timing, m: Machine)
    requires Posed(c, s) && CF.Explore(View(c), s).Unsafe? && c.InRange(s.pc)
    requires m == Witness(s, c.program[s.pc].predicate_, true, 1, false)
    ensures var o := Execute(c, w, m, c.program[s.pc]); o.Trap? && o.reason in {2, 3, 4}
  {
    hide Ticks, Step, TransportStep, PrimitiveStep, Alu;
    assert ControlAllocated(c, s);
  }

  predicate ControlAllocated(c: Config, s: CF.State)
    requires c.Valid() && c.InRange(s.pc)
  {
    var i := c.program[s.pc];
    i.cls == CONTROL ==> i.opcode <= WAIT && (i.opcode == WAIT ==> !c.target.P3?)
  }
}

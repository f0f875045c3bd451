/** What single steps of the machine do when nothing is in flight: results of the scalar
    instructions, comparisons and the predicates that read them, branches, waits and the
    bookkeeping of the job. */
module Steps {
  import opened Common
  import opened Arithmetic
  import opened BitStream
  import opened Isa
  import opened Memory
  import opened Transport
  import opened Machine
  import Conservation
  import S = Scalar

  // ---------------------------------------------------------------- Calm states

  /** Nothing is in flight and nothing has failed. */
  predicate Calm(m: Machine) {
    && m.kernel.pendingDst.None? && m.kernel.fault.None? && m.transportFault.None? && m.transportDst == {}
    && (m.transport.Some? ==> m.transport.value.pending == [] && m.transport.value.completed == [])
  }

  /** The next instruction is legal and within the budget. */
  predicate Legal(c: Config, m: Machine)
    requires c.Valid()
  {
    && c.InRange(m.core.pc) && ValidInstruction(c.program[m.core.pc], c.target, c.abi)
    && m.core.retired < c.entry.maxRetired
  }

  lemma CalmTicks(c: Config, m: Machine)
    requires Calm(m)
    ensures Ticks(c, m) == m && PendingRegisters(m) == {}
  {
    if m.transport.Some? && m.prims.Some? {
      TickOne(c.settings, m.transport.value, m.prims.value, c.entry);
    }
  }

  /** The state behind an instruction that only moves on. */
  function Skipped(m: Machine): Machine {
    m.(core := m.core.(pc := m.core.pc + 1, retired := m.core.retired + 1), watchdog := 0)
  }

  /** The instruction is passed over: only the counters move, unless it is the last one. */
  ghost predicate PassedOver(c: Config, m: Machine, o: Outcome) {
    if m.core.pc == c.entry.lastPc || m.core.pc == (if c.abi.V1? then 0x7FF else 0xFFF) then o == Trap(2, m)
    else o == Next(Skipped(m))
  }

  lemma CalmStep(c: Config, w: Timing, m: Machine)
    requires c.Valid() && Calm(m) && Legal(c, m)
    ensures var i := c.program[m.core.pc];
      if PredicateHolds(c, w, m, i.predicate_) then Step(c, w, m) == Execute(c, w, m, i)
      else PassedOver(c, m, Step(c, w, m))
  {
    hide Ticks, Execute, PredicateHolds, ValidInstruction;
    CalmTicks(c, m);
    assert !PendingDependency(m, c.program[m.core.pc]);
  }

  // ---------------------------------------------------------------- Scalar instructions

  /** Bit `k` of the result of a bitwise operator or a shift; bit 0 is the most significant. */
  function ResultBit(i: Instruction, a: word, b: word, k: nat): bit
    requires k < 32
  {
    if i.opcode == SHL then if k + b % 32 < 32 then S.WordBits(a)[k + b % 32] else 0
    else if i.opcode == SHR then if k >= b % 32 then S.WordBits(a)[k - b % 32] else 0
    else S.Combined(i.opcode, S.WordBits(a)[k], S.WordBits(b)[k])
  }

  ghost predicate BitByBit(i: Instruction, a: word, b: word, v: word) {
    forall k: nat :: k < 32 ==> S.WordBits(v)[k] == ResultBit(i, a, b, k)
  }

  /** The signed word, divided by a power of two and rounded down. */
  predicate ShiftedDown(a: word, b: word, v: word) {
    var unit := Pow2(b % 32);
    Signed32(v) * unit <= Signed32(a) < Signed32(v) * unit + unit
  }

  /** The smaller or larger operand, as signed numbers if asked for. */
  predicate Extreme(i: Instruction, a: word, b: word, v: word) {
    var x, y := if i.aux != 0 then Signed32(a) else a, if i.aux != 0 then Signed32(b) else b;
    var z := if i.aux != 0 then Signed32(v) else v;
    (v == a || v == b) && if i.opcode == MIN then z <= x && z <= y else z >= x && z >= y
  }

  /** The word that an instruction other than CMP makes of its operands. */
  ghost predicate IsResult(i: Instruction, a: word, b: word, v: word) {
    if i.opcode == MOV then v == a
    else if i.opcode == MOVI then v == i.immediate % 0x1_0000_0000
    else if i.opcode == ADD then v == (a + b) % 0x1_0000_0000
    else if i.opcode == SUB then v == (a - b) % 0x1_0000_0000
    else if i.opcode in {AND, OR, XOR, SHL, SHR} then BitByBit(i, a, b, v)
    else if i.opcode == SAR then ShiftedDown(a, b, v)
    else if i.opcode == MIN || i.opcode == MAX then Extreme(i, a, b, v)
    else S.Read32(i.aux, v) == Min(Max(S.Read32(i.aux, a), S.Lowest(i.aux)), S.Highest(i.aux))
  }

  lemma BitResults(i: Instruction, a: word, b: word)
    requires i.opcode in {AND, OR, XOR, SHL, SHR}
    ensures BitByBit(i, a, b, S.Outcome32(i, a, b))
  {
    hide S.WordBits, S.Outcome32, S.Combined;
    forall k: nat | k < 32
      ensures S.WordBits(S.Outcome32(i, a, b))[k] == ResultBit(i, a, b, k)
    {
      if i.opcode == SHL {
        S.ShiftLeftMeaning(i, a, b, k);
      } else if i.opcode == SHR {
        S.ShiftRightMeaning(i, a, b, k);
      } else {
        S.LogicMeaning(i, a, b, k);
      }
    }
  }

  lemma Results(i: Instruction, a: word, b: word)
    requires i.opcode <= SAT && i.opcode != CMP
    ensures IsResult(i, a, b, S.Outcome32(i, a, b))
  {
    hide BitByBit, S.Outcome32, S.Lowest, S.Highest, S.Read32, Pow2;
    if i.opcode in {AND, OR, XOR, SHL, SHR} {
      BitResults(i, a, b);
    } else if i.opcode == SAR {
      S.ArithmeticShiftMeaning(i, a, b);
    } else if i.opcode == SAT {
      S.SaturationClamps(i, a, b);
    } else {
      NumberResults(i, a, b);
    }
  }

  lemma NumberResults(i: Instruction, a: word, b: word)
    requires i.opcode in {MOV, MOVI, ADD, SUB, MIN, MAX}
    ensures IsResult(i, a, b, S.Outcome32(i, a, b))
  {
    hide BitByBit, S.Lowest, S.Highest, S.Read32, BitAnd, BitOr, BitXor, Pow2;
  }

  /** An unpredicated scalar instruction moves on, writes its result to `dst` and nothing
      else; CMP sets the three flags to what holds of its operands and writes nothing. */
  lemma ScalarResults(c: Config, w: Timing, m: Machine)
    requires c.Valid() && Calm(m) && Legal(c, m) && c.InRange(m.core.pc + 1)
    requires var i := c.program[m.core.pc]; i.cls == SCALAR && i.predicate_ == 0 && i.dst < 16
    ensures var i, o := c.program[m.core.pc], Step(c, w, m);
      var a, b := Reg(m.core.registers, i.src0), Reg(m.core.registers, i.src1);
      && o.Next?
      && (i.opcode == CMP ==>
            o.m == Skipped(m.(core := m.core.(eq := a == b, signedLt := Signed32(a) < Signed32(b),
              unsignedLt := a < b))))
      && (i.opcode != CMP ==>
            && o.m == Skipped(m.(core := m.core.(registers := m.core.registers[i.dst := o.m.core.registers[i.dst]])))
            && IsResult(i, a, b, o.m.core.registers[i.dst]))
  {
    hide IsResult, Alu, ValidInstruction;
    var i := c.program[m.core.pc];
    CalmStep(c, w, m);
    assert i.opcode <= SAT by { ScalarOpcode(c, m); }
    var a, b := Reg(m.core.registers, i.src0), Reg(m.core.registers, i.src1);
    if i.opcode != CMP {
      Results(i, a, b);
    }
  }

  lemma ScalarOpcode(c: Config, m: Machine)
    requires c.Valid() && Legal(c, m) && c.program[m.core.pc].cls == SCALAR
    ensures c.program[m.core.pc].opcode <= SAT
  {
  }

  // ---------------------------------------------------------------- Predicates

  /** The six conditions on two words. */
  predicate Compares(k: nat, a: word, b: word) {
    || (k == 1 && a == b) || (k == 2 && a != b)
    || (k == 3 && Signed32(a) < Signed32(b)) || (k == 4 && Signed32(a) >= Signed32(b))
    || (k == 5 && a < b) || (k == 6 && a >= b)
  }

  /** A comparison of two words, then an instruction with one of the predicates 1 to 6: it is
      executed exactly when the words are equal, not equal, less as signed numbers, not less
      as signed numbers, less, or not less; otherwise it is passed over. */
  lemma ComparedThenPredicated(c: Config, w: Timing, m: Machine)
    requires c.Valid() && Calm(m) && Legal(c, m)
    requires var i := c.program[m.core.pc]; i.cls == SCALAR && i.opcode == CMP && i.predicate_ == 0 && i.dst < 16
    requires c.InRange(m.core.pc + 1) && Legal(c, Skipped(m)) && 1 <= c.program[m.core.pc + 1].predicate_ <= 6
    ensures var compare, i := c.program[m.core.pc], c.program[m.core.pc + 1];
      var a, b := Reg(m.core.registers, compare.src0), Reg(m.core.registers, compare.src1);
      var first := Step(c, w, m);
      && first.Next? && first.m.core.pc == m.core.pc + 1 && first.m.core.registers == m.core.registers
      && if Compares(i.predicate_, a, b) then Step(c, w, first.m) == Execute(c, w, first.m, i)
         else PassedOver(c, first.m, Step(c, w, first.m))
  {
    hide Execute, Step, ValidInstruction, Ticks;
    ScalarResults(c, w, m);
    CalmStep(c, w, Step(c, w, m).m);
  }

  /** What the predicates 7 to 11 read: the end of the input, input to pop, space in the output
      FIFO, the kernel's done flag and an idle transport; without primitives their wires. */
  predicate Status(c: Config, w: Timing, m: Machine, k: nat) {
    if k == 11 then (if m.transport.Some? then m.transport.value.pending == [] else w.inputs.transportDone)
    else if c.target.P3? || m.prims.None? then
      || (k == 7 && w.inputs.inputExhausted) || (k == 8 && w.inputs.inputReady)
      || (k == 9 && w.inputs.outputReady) || (k == 10 && w.inputs.kernelDone)
    else
      var p := m.prims.value;
      || (k == 7 && p.input.eof && p.input.words + p.input.bits == [])
      || (k == 8 && |p.input.words| > 0) || (k == 9 && |p.outputFifo| != 64) || (k == 10 && p.kernelDone)
  }

  lemma StatusPredicated(c: Config, w: Timing, m: Machine)
    requires c.Valid() && Calm(m) && Legal(c, m) && 7 <= c.program[m.core.pc].predicate_
    ensures var i := c.program[m.core.pc];
      if Status(c, w, m, i.predicate_) then Step(c, w, m) == Execute(c, w, m, i)
      else PassedOver(c, m, Step(c, w, m))
  {
    hide Execute, Step, Ticks;
    CalmStep(c, w, m);
    assert c.program[m.core.pc].predicate_ <= 11;
  }

  // ---------------------------------------------------------------- Branches and waits

  /** The state at `pc`, one instruction later. */
  function MovedTo(m: Machine, pc: int): Machine {
    m.(core := m.core.(pc := pc, retired := m.core.retired + 1), watchdog := 0)
  }

  /** Goes on at `pc`, or traps if that is out of range. */
  predicate Arrives(c: Config, o: Outcome, m: Machine, pc: int) {
    if c.InRange(pc) then o == Next(MovedTo(m, pc)) else o.Trap? && o.reason == 2
  }

  /** An unpredicated control instruction: END ends, TRAP traps with reason 10, a jump skips as
      many instructions as it says, a call does the same and remembers the next one, and a
      return goes to the one remembered last. */
  lemma Branches(c: Config, w: Timing, m: Machine)
    requires c.Valid() && Calm(m) && Legal(c, m)
    requires c.program[m.core.pc].cls == CONTROL && c.program[m.core.pc].predicate_ == 0
    ensures var i, o, next, stack := c.program[m.core.pc], Step(c, w, m), m.core.pc + 1, m.core.stack;
      && (i.opcode == END ==> o == Done(m.(core := m.core.(retired := m.core.retired + 1), watchdog := 0)))
      && (i.opcode == TRAP ==> o == Trap(10, m))
      && (i.opcode == NOP ==> Arrives(c, o, m, next))
      && (i.opcode == JUMP_FWD ==> Arrives(c, o, m, next + i.immediate))
      && (i.opcode == CALL_FWD ==>
            if |stack| >= 4 then |stack| == 4 ==> o == Trap(3, m)
            else Arrives(c, o, m.(core := m.core.(stack := stack + [next])), next + i.immediate))
      && (i.opcode == RET ==>
            if stack == [] then o == Trap(3, m)
            else
              Arrives(c, o, m.(core := m.core.(stack := stack[..|stack| - 1])), stack[|stack| - 1]))
  {
    hide Ticks, WaitReady, ValidInstruction, ScalarStep, TransportStep, PrimitiveStep, Stall, Step;
    CalmStep(c, w, m);
    assert c.program[m.core.pc].opcode == END ==> m.transport.None? || m.transport.value.pending == [];
  }

  /** A loop begins with the count in `src0`, which must be from one to the limit of the entry,
      and in a slot that is not in use. */
  lemma LoopBegins(c: Config, w: Timing, m: Machine)
    requires c.Valid() && Calm(m) && Legal(c, m)
    requires var i := c.program[m.core.pc]; i.cls == CONTROL && i.opcode == LOOP_SETUP && i.predicate_ == 0
    ensures var i, o, next := c.program[m.core.pc], Step(c, w, m), m.core.pc + 1;
      var slot, count := i.aux % 4, Reg(m.core.registers, i.src0) % 0x1_0000;
      if slot in m.core.loops || count == 0 || count > c.entry.maxLoopCount then o == Trap(4, m)
      else Arrives(c, o, m.(core := m.core.(loops := m.core.loops[slot := (count, next)])), next)
  {
    hide Ticks, WaitReady, ValidInstruction, ScalarStep, TransportStep, PrimitiveStep, Stall, Step;
    CalmStep(c, w, m);
  }

  /** A call and the return that finds the stack as the call left it: execution goes on behind
      the call, with the stack from before it. */
  lemma CallReturns(c: Config, w: Timing, v: Timing, before: Machine, later: Machine)
    requires c.Valid() && Calm(before) && Legal(c, before) && Calm(later) && Legal(c, later)
    requires var i := c.program[before.core.pc];
      i.cls == CONTROL && i.opcode == CALL_FWD && i.predicate_ == 0 && Step(c, w, before).Next?
    requires var i := c.program[later.core.pc]; i.cls == CONTROL && i.opcode == RET && i.predicate_ == 0
    requires later.core.stack == Step(c, w, before).m.core.stack && c.InRange(before.core.pc + 1)
    ensures var o := Step(c, v, later);
      o.Next? && o.m.core.pc == before.core.pc + 1 && o.m.core.stack == before.core.stack
  {
    hide Step, Ticks, ValidInstruction;
    Branches(c, w, before);
    Branches(c, v, later);
    DeepCall(c, w, before);
  }

  lemma DeepCall(c: Config, w: Timing, m: Machine)
    requires c.Valid() && Calm(m) && Legal(c, m) && Step(c, w, m).Next?
    requires var i := c.program[m.core.pc]; i.cls == CONTROL && i.opcode == CALL_FWD && i.predicate_ == 0
    ensures Step(c, w, m).m.core.stack == m.core.stack + [m.core.pc + 1]
  {
    hide Ticks, WaitReady, ValidInstruction, ScalarStep, TransportStep, PrimitiveStep, Stall, Step;
    CalmStep(c, w, m);
  }

  /** WAIT goes on when what its source names is there - no transport under way, the kernel's
      done flag, a word to pop, space in the output FIFO - and spends a cycle otherwise. */
  lemma Waits(c: Config, w: Timing, m: Machine)
    requires c.Valid() && Calm(m) && Legal(c, m) && m.prims.Some?
    requires var i := c.program[m.core.pc]; i.cls == CONTROL && i.opcode == WAIT && i.predicate_ == 0
    ensures var i, o, p := c.program[m.core.pc], Step(c, w, m), m.prims.value;
      var ready := if i.aux == 1 then p.kernelDone else if i.aux == 2 then |p.input.words| > 0
        else if i.aux == 3 then |p.outputFifo| != 64 else i.aux in {0, 4, 5} && m.transport.Some?;
      if ready then Arrives(c, o, m, m.core.pc + 1)
      else if w.timeout <= 0 || m.watchdog + 1 >= w.timeout then o == Trap(7, m.(watchdog := m.watchdog + 1))
      else o == Next(m.(watchdog := m.watchdog + 1))
  {
    hide Ticks, ValidInstruction;
    CalmStep(c, w, m);
  }

  // ---------------------------------------------------------------- Job bookkeeping

  /** What the bookkeeping instructions do to the transport `t`: a wait nothing, a frame commit
      counts a frame with the input and output it stands for, a result is noted with code,
      stage and detail, and an event is remembered. */
  function Booked(i: Instruction, r: Registers, t: Transport): Transport {
    var a, b := Reg(r, i.src0), Reg(r, i.src1);
    if i.opcode == FRAME_COMMIT then
      t.(logicalInput := Min(0xFFFF_FFFF, t.logicalInput + a), logicalOutput := Min(0xFFFF_FFFF, t.logicalOutput + b),
         frames := Min(0xFFFF_FFFF, t.frames + 1))
    else if i.opcode == JOB_RESULT then t.(resultCode := a, resultStage := i.aux, resultDetail := b)
    else if i.opcode == EVENT then t.(events := BitOr(t.events, i.immediate))
    else t
  }

  /** A frame commit is refused if its output is not one frame, or if it would run ahead of
      what was read or sent; a result if its code is above 22. */
  predicate Bookable(s: Settings, i: Instruction, r: Registers, t: Transport) {
    var a, b := Reg(r, i.src0), Reg(r, i.src1);
    && (i.opcode == FRAME_COMMIT ==>
          b == s.outputFrameBytes && t.logicalInput + a <= t.inputCursor && t.logicalOutput + b <= |t.output|)
    && (i.opcode == JOB_RESULT ==> a <= 22)
  }

  /** An unpredicated bookkeeping instruction books at once, clears its destination and moves
      on, or traps. */
  lemma Books(c: Config, w: Timing, m: Machine)
    requires c.Valid() && Calm(m) && Legal(c, m) && m.prims.Some? && m.transport.Some?
    requires var i := c.program[m.core.pc];
      i.cls == TRANSPORT && i.opcode in {DMA_WAIT, FRAME_COMMIT, JOB_RESULT, EVENT} && i.predicate_ == 0 && i.dst < 16
    ensures var i, o, r := c.program[m.core.pc], Step(c, w, m), m.core.registers;
      if Bookable(c.settings, i, r, m.transport.value) then
        Arrives(c, o, m.(core := m.core.(registers := r[i.dst := 0]),
          transport := Some(Booked(i, r, m.transport.value))),
                m.core.pc + 1)
      else o == Trap(if i.opcode == JOB_RESULT then 1 else 9, m)
  {
    hide Ticks, ValidInstruction, BitOr, BitAnd;
    CalmStep(c, w, m);
    var i, t := c.program[m.core.pc], m.transport.value;
    EventBits(c, m);
    var booked := Booked(i, m.core.registers, t);
    if Bookable(c.settings, i, m.core.registers, t) {
      BookedIssue(c, m, i);
      BookedTick(c, m, booked, i.dst);
    }
  }

  lemma EventBits(c: Config, m: Machine)
    requires c.Valid() && Legal(c, m) && c.program[m.core.pc].cls == TRANSPORT
    ensures var i := c.program[m.core.pc];
      && (i.opcode == EVENT ==> BitAnd(i.immediate, 0x0C0) == i.immediate)
      && (i.opcode == JOB_RESULT ==> i.aux % 16 == i.aux)
  {
    hide BitAnd, BitsWithin, TargetMask, RequiredMask;
    EventMasks();
  }

  lemma EventMasks()
    ensures BitAnd(0x40, 0xC0) == 0x40 && BitAnd(0x80, 0xC0) == 0x80 && BitAnd(0xC0, 0xC0) == 0xC0
  {
    hide BitAnd;
    assert Pow2(6) == 0x40;
    assert BitAnd(1, 3) == 1 && BitAnd(2, 3) == 2 && BitAnd(3, 3) == 3 by { SmallAnds(); }
    AndScales(1, 3, 6);
    AndScales(2, 3, 6);
    AndScales(3, 3, 6);
  }

  lemma SmallAnds()
    ensures BitAnd(1, 3) == 1 && BitAnd(2, 3) == 2 && BitAnd(3, 3) == 3
  {
  }

  lemma {:induction false} AndScales(a: nat, b: nat, k: nat)
    ensures a * Pow2(k) >= 0 && b * Pow2(k) >= 0 && BitAnd(a * Pow2(k), b * Pow2(k)) == BitAnd(a, b) * Pow2(k)
    decreases k
  {
    hide BitAnd;
    if k == 0 {
    } else {
      AndScales(a, b, k - 1);
      var unit := Pow2(k - 1);
      AndDoubles(a * unit, b * unit);
      TwiceAsMuch(a, unit);
      TwiceAsMuch(b, unit);
      TwiceAsMuch(BitAnd(a, b), unit);
    }
  }

  lemma TwiceAsMuch(a: int, unit: int)
    ensures a * (2 * unit) == 2 * (a * unit)
  {
  }

  lemma AndDoubles(a: nat, b: nat)
    ensures BitAnd(2 * a, 2 * b) == 2 * BitAnd(a, b)
  {
    assert 2 * a / 2 == a && 2 * b / 2 == b;
  }

  lemma BookedIssue(c: Config, m: Machine, i: Instruction)
    requires Calm(m) && m.transport.Some? && i.opcode in {DMA_WAIT, FRAME_COMMIT, JOB_RESULT, EVENT}
    requires i.opcode == EVENT ==> BitAnd(i.immediate, 0x0C0) == i.immediate
    requires i.opcode == JOB_RESULT ==> i.aux % 16 == i.aux
    requires Bookable(c.settings, i, m.core.registers, m.transport.value)
    ensures IssueJob(c.settings, m.transport.value, i, Reg(m.core.registers, i.src0), Reg(m.core.registers, i.src1))
      == Accepted(Booked(i, m.core.registers, m.transport.value).(completed := [(i.dst, 0)]))
  {
    hide BitOr, BitAnd;
  }

  lemma BookedTick(c: Config, m: Machine, t: Transport, dst: nat)
    requires Calm(m) && m.prims.Some? && t.pending == [] && t.completed == [] && dst < 16
    ensures TickTransport(c, m.(transport := Some(t.(completed := [(dst, 0)]))))
      == m.(core := m.core.(registers := m.core.registers[dst := 0]), transport := Some(t))
  {
    var done := t.(completed := [(dst, 0)]);
    TickOne(c.settings, done, m.prims.value, c.entry);
    var booked := m.(transport := Some(done));
    Conservation.DrainSingle(booked, done);
    assert booked.(prims := Some(m.prims.value)) == booked && done.(completed := []) == t;
    assert m.transportDst - {dst} == m.transportDst;
  }
}

/** The FIXED and LPC instructions from their operands on: alignment, references into
    tables and scratch, coefficients and shift, then the prediction kernel. */
module Operands {
  import opened Common
  import opened Isa
  import opened Memory
  import opened Prediction
  import opened Kernels
  import T = Transport

  /** A word of the parameter block. */
  function Parameter(m: Memory, address: int, e: Entry): (r: Result<word, Fault>)
    ensures r.Err? ==> r.error == RANGE_FAULT
  {
    var bytes :- Read(m, address, 4, e, false);
    Ok(FromLittleEndian(bytes))
  }

  /** The address a reference names, and whether it lies in the table. */
  function Referent(reference: word, e: Entry): (int, bool) {
    var table := reference >= 0x8000_0000;
    ((if table then e.tableOffset else e.scratchBase) + reference % (if table then 0x1_0000 else 0x2_0000), table)
  }

  /** Bits that must be clear, and state that would lie in the table. */
  predicate BadReference(reference: word, state: bool) {
    var table := reference >= 0x8000_0000;
    var low := reference % 0x8000_0000;
    low != low % (if table then 0x1_0000 else 0x2_0000) || reference % 4 != 0 || (state && table)
  }

  /** `_resolve_ref`: a reference names a region of the table or of scratch memory; state
      must lie in scratch. */
  function Resolve(m: Memory, reference: word, e: Entry, size: int, state: bool): (r: Result<(int, bool), Fault>)
    ensures r.Err? ==> r.error == RANGE_FAULT
  {
    var (address, table) := Referent(reference, e);
    if BadReference(reference, state) || !InWindow(m, address, size, e, table) then Err(RANGE_FAULT)
    else Ok((address, table))
  }

  /** `_kernel_arrays`, for kernels with word-aligned output */
  datatype Arrays = Arrays(count: nat, input: int, parameter: int, output: int)

  function ArraysAt(i: Instruction, r: T.Registers, e: Entry): Arrays {
    Arrays(i.immediate % 0x1_0000, e.scratchBase + T.Reg(r, i.src0), e.scratchBase + T.Reg(r, i.src1),
           e.scratchBase + T.Reg(r, i.dst))
  }

  predicate Misaligned(a: Arrays, e: Entry) {
    e.scratchBase % 4 != 0 || a.input % 4 != 0 || a.parameter % 4 != 0 || a.output % 4 != 0
  }

  function ArraysOf(m: Memory, i: Instruction, r: T.Registers, e: Entry): (a: Result<Arrays, Fault>)
    ensures a.Ok? ==> a.value.count == i.immediate % 0x1_0000
    ensures a.Err? ==> a.error == RANGE_FAULT
  {
    var a := ArraysAt(i, r, e);
    if Misaligned(a, e) || !InWindow(m, a.parameter, 4, e, false) then Err(RANGE_FAULT) else Ok(a)
  }

  /** Everything a prediction kernel works on. */
  datatype Task = Task(p: Predictor, at: Layout, count: nat)

  function FixedTask(m: Memory, i: Instruction, r: T.Registers, e: Entry): (task: Result<Task, Fault>)
    requires i.opcode == FIXED && ValidKernel(i)
    ensures task.Ok? ==> task.value.p == Fixed(i.aux) && task.value.count == i.immediate
    ensures task.Err? ==> task.error == RANGE_FAULT
  {
    var order := i.aux % 8;
    var a :- ArraysOf(m, i, r, e);
    var reference :- Parameter(m, a.parameter, e);
    var (history, _) :- Resolve(m, reference, e, 4 * Max(order, 1), true);
    if !InWindow(m, a.input, 4 * a.count, e, false) then Err(RANGE_FAULT)
    else Ok(Task(Fixed(order), Layout(history, a.input, a.output), a.count))
  }

  /** The parameter block of LPC: references to coefficients and history, and the shift. */
  datatype LpcBlock = LpcBlock(coefficients: word, history: word, shift: int)

  function LpcParameters(m: Memory, address: int, e: Entry): (b: Result<LpcBlock, Fault>)
    ensures b.Ok? ==> -31 <= b.value.shift <= 31
    ensures b.Err? ==> b.error == RANGE_FAULT
  {
    var coefficients :- Parameter(m, address, e);
    var history :- Parameter(m, address + 4, e);
    var shift :- Parameter(m, address + 8, e);
    if !(-31 <= Signed32(shift) <= 31) then Err(RANGE_FAULT) else Ok(LpcBlock(coefficients, history, Signed32(shift)))
  }

  function LpcTask(m: Memory, i: Instruction, r: T.Registers, e: Entry): (task: Result<Task, Fault>)
    requires i.opcode == LPC && ValidKernel(i)
    ensures task.Ok? ==> task.value.p.Lpc? && task.value.p.Words() && |task.value.p.coefficients| == i.aux
    ensures task.Ok? ==> -31 <= task.value.p.shift <= 31 && task.value.count == i.immediate
    ensures task.Err? ==> task.error == RANGE_FAULT
  {
    assert i.aux % 64 == i.aux <= 32 && i.immediate % 0x1_0000 == i.immediate;
    var order := i.aux % 64;
    var a :- ArraysOf(m, i, r, e);
    var block :- LpcParameters(m, a.parameter, e);
    var (address, table) :- Resolve(m, block.coefficients, e, 4 * order, false);
    var (history, _) :- Resolve(m, block.history, e, 4 * order, true);
    var coefficients :- WordsFrom(m, address, [], order, e, table);
    var p := Lpc(coefficients, block.shift);
    assert p.Words();
    Ok(Task(p, Layout(history, a.input, a.output), a.count))
  }

  function TaskOf(m: Memory, i: Instruction, r: T.Registers, e: Entry): (task: Result<Task, Fault>)
    requires (i.opcode == FIXED || i.opcode == LPC) && ValidKernel(i)
    ensures task.Ok? ==> task.value.p.Valid() && task.value.p.Words() && task.value.count == i.immediate
    ensures task.Err? ==> task.error == RANGE_FAULT
  {
    if i.opcode == FIXED then FixedTask(m, i, r, e) else LpcTask(m, i, r, e)
  }

  /** The FIXED and LPC instructions: the memory they leave and the count they return. */
  function Predicted(m: Memory, i: Instruction, r: T.Registers, e: Entry): (Memory, Result<nat, Fault>)
    requires (i.opcode == FIXED || i.opcode == LPC) && ValidKernel(i)
  {
    match TaskOf(m, i, r, e)
    case Err(fault) => (m, Err(fault))
    case Ok(task) =>
      var (m', fault) := Call(m, e, task.p, task.at, task.count);
      (m', if fault.Some? then Err(fault.value) else Ok(task.count))
  }

  method Predict(m0: Memory, i: Instruction, r: T.Registers, e: Entry) returns (m: Memory, outcome: Result<nat, Fault>)
    requires (i.opcode == FIXED || i.opcode == LPC) && ValidKernel(i)
    ensures (m, outcome) == Predicted(m0, i, r, e)
  {
    hide FixedTask, LpcTask, Call;
    var task := TaskOf(m0, i, r, e);
    if task.Err? {
      return m0, Err(task.error);
    }
    var fault: Option<Fault>;
    m, fault := PredictKernel(m0, e, task.value.p, task.value.at, task.value.count);
    outcome := if fault.Some? then Err(fault.value) else Ok(task.value.count);
  }

  /** What a kernel call on good operands leaves behind. */
  ghost predicate Performed(
    m0: Memory, m: Memory, e: Entry, task: Task, history0: seq<int>, residuals: seq<int>, outcome: Result<nat, Fault>)
    requires |history0| == task.p.Order() && task.p.Valid()
  {
    match KernelRun(task.p, history0, residuals)
    case None => outcome == Err(SAMPLE_FAULT)
    case Some((samples, last)) =>
      && outcome == Ok(task.count) && Holds(m, task.at.output, samples, e) && Holds(m, task.at.history, last, e)
      && OnlyWrote(m0, m, task.at.output, 4 * task.count, task.at.history, 4 * task.p.Order())
  }

  /** Bad operands fault and change nothing; good ones on separate regions write the
      samples and the history of the prediction kernel, touch nothing else and fault
      exactly when a sample leaves the 32-bit range. The accumulator fault is never raised. */
  lemma PredictedPerforms(
    m0: Memory, i: Instruction, r: T.Registers, e: Entry, history0: seq<int>, residuals: seq<int>)
    requires (i.opcode == FIXED || i.opcode == LPC) && ValidKernel(i)
    ensures var task := TaskOf(m0, i, r, e);
      var (m, outcome) := Predicted(m0, i, r, e);
      && (outcome.Err? ==> outcome.error == RANGE_FAULT || outcome.error == SAMPLE_FAULT)
      && (task.Err? ==> outcome == Err(task.error) && m == m0)
      && (task.Ok? && |history0| == task.value.p.Order() && |residuals| == task.value.count
          && Loaded(m0, e, task.value.at, history0, residuals) ==>
            Performed(m0, m, e, task.value, history0, residuals, outcome))
  {
    hide FixedTask, LpcTask, KernelRun, Loaded, Holds, OnlyWrote, Call;
    var task := TaskOf(m0, i, r, e);
    if task.Ok? {
      var t := task.value;
      CallNeverOverflows(m0, e, t.p, t.at, t.count);
      if |history0| == t.p.Order() && |residuals| == t.count && Loaded(m0, e, t.at, history0, residuals) {
        CallPerforms(m0, e, t.p, t.at, history0, residuals);
      }
    }
  }

  // ---------------------------------------------------------------- From the registers on

  /** Words of a table or of scratch memory. */
  ghost predicate Contains(m: Memory, address: int, values: seq<int>, e: Entry, table: bool) {
    forall k :: 0 <= k < |values| ==>
      var read := Read(m, Cell(address, k), 4, e, table);
      read.Ok? && Signed32(FromLittleEndian(read.value)) == values[k]
  }

  lemma {:induction false} WordsContained(m: Memory, address: int, values: seq<int>, e: Entry, table: bool, k: nat)
    requires Contains(m, address, values, e, table) && k <= |values|
    ensures WordsFrom(m, address, values[..k], |values|, e, table) == Ok(values)
    decreases |values| - k
  {
    hide FromLittleEndian, Signed32, WordsValid;
    if k == |values| {
      assert values[..k] == values;
    } else {
      assert Signed32(FromLittleEndian(Read(m, Cell(address, k), 4, e, table).value)) == values[k];
      assert values[..k] + [values[k]] == values[..k + 1];
      WordsContained(m, address, values, e, table, k + 1);
    }
  }

  lemma HoldsContains(m: Memory, address: int, values: seq<int>, e: Entry)
    requires Holds(m, address, values, e)
    ensures Contains(m, address, values, e, false)
  {
    hide FromLittleEndian, Signed32, WordsValid;
    forall k | 0 <= k < |values|
      ensures var read := Read(m, Cell(address, k), 4, e, false);
        read.Ok? && Signed32(FromLittleEndian(read.value)) == values[k]
    {
      assert ReadS32(m, Cell(address, k), e) == Ok(values[k]);
    }
  }

  /** Words that can be read one by one lie in a window as a whole. */
  lemma ContainedInWindow(m: Memory, address: int, values: seq<int>, e: Entry, table: bool)
    requires Contains(m, address, values, e, table) && values != []
    ensures InWindow(m, address, 4 * |values|, e, table)
  {
    hide FromLittleEndian, Signed32, WordsValid;
    var last := |values| - 1;
    assert Read(m, Cell(address, 0), 4, e, table).Ok? && Read(m, Cell(address, last), 4, e, table).Ok?;
  }

  /** The three operand registers are aligned, and so is the scratch window. */
  predicate AlignedOperands(i: Instruction, r: T.Registers, e: Entry) {
    && e.scratchBase % 4 == 0 && T.Reg(r, i.src0) % 4 == 0 && T.Reg(r, i.src1) % 4 == 0 && T.Reg(r, i.dst) % 4 == 0
  }

  /** Input at `src0`, output at `dst`, history at an offset, all from the scratch base on. */
  function LayoutOf(i: Instruction, r: T.Registers, e: Entry, history: nat): Layout {
    Layout(e.scratchBase + history, e.scratchBase + T.Reg(r, i.src0), e.scratchBase + T.Reg(r, i.dst))
  }

  /** FIXED: the word at `src1` is the offset of the history. */
  lemma FixedOperands(
    m: Memory, i: Instruction, r: T.Registers, e: Entry, offset: nat, history: seq<int>, residuals: seq<int>)
    requires i.opcode == FIXED && ValidKernel(i) && AlignedOperands(i, r, e)
    requires |history| == i.aux && |residuals| == i.immediate && offset % 4 == 0 && offset < 0x2_0000
    requires Parameter(m, e.scratchBase + T.Reg(r, i.src1), e) == Ok(offset)
    requires Loaded(m, e, LayoutOf(i, r, e, offset), history, residuals)
    requires i.aux == 0 ==> InWindow(m, e.scratchBase + offset, 4, e, false)
    ensures TaskOf(m, i, r, e) == Ok(Task(Fixed(i.aux), LayoutOf(i, r, e, offset), i.immediate))
  {
    hide ReadS32, FromLittleEndian, Separate, Contains, Parameter, Resolve, ArraysOf, InWindow;
    var at := LayoutOf(i, r, e, offset);
    HoldsContains(m, at.input, residuals, e);
    ContainedInWindow(m, at.input, residuals, e, false);
    ParameterInWindow(m, e.scratchBase + T.Reg(r, i.src1), e);
    ArraysResolve(m, i, r, e);
    if i.aux > 0 {
      HoldsContains(m, at.history, history, e);
      ReferenceResolves(m, offset, e, history, true);
    } else {
      OffsetResolves(m, offset, e);
    }
  }

  lemma OffsetResolves(m: Memory, offset: nat, e: Entry)
    requires offset % 4 == 0 && offset < 0x2_0000 && InWindow(m, e.scratchBase + offset, 4, e, false)
    ensures Resolve(m, offset, e, 4, true) == Ok((e.scratchBase + offset, false))
  {
    hide InWindow;
  }

  lemma ParameterInWindow(m: Memory, address: int, e: Entry)
    requires Parameter(m, address, e).Ok?
    ensures InWindow(m, address, 4, e, false)
  {
    hide FromLittleEndian, WordsValid;
  }

  /** LPC: the three words at `src1` are a reference to the coefficients, the offset of the
      history, and the shift. A reference with the highest bit set counts from the start of
      the table, one without from the start of the scratch window. */
  lemma LpcOperands(
    m: Memory, i: Instruction, r: T.Registers, e: Entry, reference: word, offset: nat, shift: word,
      coefficients: seq<int>, history: seq<int>, residuals: seq<int>)
    requires i.opcode == LPC && ValidKernel(i) && AlignedOperands(i, r, e)
    requires |coefficients| == |history| == i.aux && |residuals| == i.immediate
    requires offset % 4 == 0 && offset < 0x2_0000 && -31 <= Signed32(shift) <= 31
    requires reference % 4 == 0 && (reference < 0x2_0000 || 0x8000_0000 <= reference < 0x8001_0000)
    requires var block := e.scratchBase + T.Reg(r, i.src1);
      && Parameter(m, block, e) == Ok(reference) && Parameter(m, block + 4, e) == Ok(offset)
      && Parameter(m, block + 8, e) == Ok(shift)
    requires if reference < 0x2_0000 then Contains(m, e.scratchBase + reference, coefficients, e, false)
      else Contains(m, e.tableOffset + (reference - 0x8000_0000), coefficients, e, true)
    requires Loaded(m, e, LayoutOf(i, r, e, offset), history, residuals)
    ensures TaskOf(m, i, r, e)
      == Ok(Task(Lpc(coefficients, Signed32(shift)), LayoutOf(i, r, e, offset), i.immediate))
  {
    hide ReadS32, FromLittleEndian, Separate, Contains, WordsFrom, Parameter, Resolve, ArraysOf, Signed32;
    var at := LayoutOf(i, r, e, offset);
    HoldsContains(m, at.history, history, e);
    ParameterInWindow(m, e.scratchBase + T.Reg(r, i.src1), e);
    ArraysResolve(m, i, r, e);
    var (address, table) := Referent(reference, e);
    assert Contains(m, address, coefficients, e, table);
    ReferenceResolves(m, reference, e, coefficients, false);
    ReferenceResolves(m, offset, e, history, true);
    assert coefficients[..0] == [];
    WordsContained(m, address, coefficients, e, table, 0);
  }

  lemma ArraysResolve(m: Memory, i: Instruction, r: T.Registers, e: Entry)
    requires AlignedOperands(i, r, e) && InWindow(m, e.scratchBase + T.Reg(r, i.src1), 4, e, false)
    ensures ArraysOf(m, i, r, e) == Ok(ArraysAt(i, r, e))
  {
    hide InWindow;
  }

  lemma ReferenceResolves(m: Memory, reference: word, e: Entry, values: seq<int>, state: bool)
    requires reference % 4 == 0 && (reference < 0x2_0000 || (!state && 0x8000_0000 <= reference < 0x8001_0000))
    requires values != []
    requires var (address, table) := Referent(reference, e); Contains(m, address, values, e, table)
    ensures Resolve(m, reference, e, 4 * |values|, state) == Ok(Referent(reference, e))
  {
    hide Contains, InWindow;
    var (address, table) := Referent(reference, e);
    ContainedInWindow(m, address, values, e, table);
  }

  /** FIXED and LPC on loaded operands leave in memory the samples that continue the history
      with the residuals, and raise the sample fault exactly when none that fit 32 bits do. */
  lemma InstructionRestores(
    m0: Memory, i: Instruction, r: T.Registers, e: Entry, task: Task, history: seq<int>, residuals: seq<int>)
    returns (samples: seq<int>)
    requires (i.opcode == FIXED || i.opcode == LPC) && ValidKernel(i) && TaskOf(m0, i, r, e) == Ok(task)
    requires |history| == task.p.Order() && |residuals| == task.count
    requires Loaded(m0, e, task.at, history, residuals)
    ensures var (m, outcome) := Predicted(m0, i, r, e);
      match outcome
      case Ok(count) =>
        && count == |residuals| && Restored(m, e, task.p, task.at, history, residuals, samples)
        && OnlyWrote(m0, m, task.at.output, 4 * |residuals|, task.at.history, 4 * |history|)
      case Err(fault) => fault == SAMPLE_FAULT && !exists some :: Continued(task.p, history, some, residuals)
  {
    hide FixedTask, LpcTask, Loaded, Restored, OnlyWrote, Call, Continued;
    samples := CallRestores(m0, e, task.p, task.at, history, residuals);
  }
}

/** The FIXED and LPC kernels on local memory: residuals in, samples out, history
    saved in place for the next call. */
module Kernels {
  import opened Common
  import opened Isa
  import opened Memory
  import opened Prediction

  const SAMPLE_FAULT: Fault := Fault(8, 6, 9)
  const ACCUMULATOR_FAULT: Fault := Fault(22, 6, 9)

  function ReadS32(m: Memory, address: int, e: Entry): Result<int, Fault> {
    match Read(m, address, 4, e, false)
    case Err(fault) => Err(fault)
    case Ok(bytes) => Ok(Signed32(FromLittleEndian(bytes)))
  }

  function WriteS32(m: Memory, address: int, value: int, e: Entry): Result<Memory, Fault> {
    Write(m, address, WordBytesLE(ToWord(value)), e)
  }

  /** What was stored is read back, and reads elsewhere are not disturbed. */
  lemma StoreLoad(m: Memory, address: int, value: int, e: Entry)
    requires WriteS32(m, address, value, e).Ok? && InS32(value)
    ensures ReadS32(WriteS32(m, address, value, e).value, address, e) == Ok(value)
  {
    hide FromLittleEndian;
    var bytes := WordBytesLE(ToWord(value));
    var m' := WriteS32(m, address, value, e).value;
    WordOfBytes(ToWord(value));
    assert m'.data[address..address + 4] == bytes;
    assert WordsValid(m', address, 4);
  }

  lemma StoreElsewhere(m: Memory, address: int, value: int, e: Entry, other: int)
    requires WriteS32(m, address, value, e).Ok? && (other + 4 <= address || address + 4 <= other)
    requires ReadS32(m, other, e).Ok?
    ensures ReadS32(WriteS32(m, address, value, e).value, other, e) == ReadS32(m, other, e)
  {
    hide FromLittleEndian;
    var m' := WriteS32(m, address, value, e).value;
    assert m'.data[other..other + 4] == m.data[other..other + 4];
  }

  /** The address of word `k` of a region. */
  function Cell(base: int, k: int): int { base + 4 * k }

  /** `values` lie in memory from `base` on. */
  ghost predicate Holds(m: Memory, base: int, values: seq<int>, e: Entry) {
    forall k :: 0 <= k < |values| ==> ReadS32(m, Cell(base, k), e) == Ok(values[k])
  }

  /** The regions `[a, a+n)` and `[b, b+k)` share no byte. */
  predicate Apart(a: int, n: int, b: int, k: int) { a + n <= b || b + k <= a }

  lemma StoreKeeps(m: Memory, address: int, value: int, e: Entry, base: int, values: seq<int>)
    requires WriteS32(m, address, value, e).Ok? && Holds(m, base, values, e) && Apart(address, 4, base, 4 * |values|)
    ensures Holds(WriteS32(m, address, value, e).value, base, values, e)
  {
    hide ReadS32, WriteS32;
    forall k | 0 <= k < |values|
      ensures ReadS32(WriteS32(m, address, value, e).value, Cell(base, k), e) == Ok(values[k])
    {
      assert ReadS32(m, Cell(base, k), e) == Ok(values[k]);
      StoreElsewhere(m, address, value, e, Cell(base, k));
    }
  }

  lemma StoreExtends(m: Memory, base: int, values: seq<int>, value: int, e: Entry)
    requires InS32(value) && Holds(m, base, values, e) && WriteS32(m, Cell(base, |values|), value, e).Ok?
    ensures Holds(WriteS32(m, Cell(base, |values|), value, e).value, base, values + [value], e)
  {
    hide ReadS32, WriteS32;
    StoreKeeps(m, Cell(base, |values|), value, e, base, values);
    StoreLoad(m, Cell(base, |values|), value, e);
  }

  /** Bytes outside the two regions are the same in both memories. */
  ghost predicate OnlyWrote(m: Memory, m': Memory, a: int, n: int, b: int, k: int) {
    && m'.tableBytes == m.tableBytes && m'.imageValid == m.imageValid && m.valid <= m'.valid
    && forall x :: 0 <= x < LOCAL_DATA_BYTES && !(a <= x < a + n) && !(b <= x < b + k) ==> m'.data[x] == m.data[x]
  }

  lemma StoreWrites(m0: Memory, m: Memory, address: int, value: int, e: Entry, a: int, n: int, b: int, k: int)
    requires OnlyWrote(m0, m, a, n, b, k) && WriteS32(m, address, value, e).Ok?
    requires (a <= address && address + 4 <= a + n) || (b <= address && address + 4 <= b + k)
    ensures OnlyWrote(m0, WriteS32(m, address, value, e).value, a, n, b, k)
  {
  }

  /** A word outside the written regions reads as before. */
  lemma WroteElsewhere(m: Memory, m': Memory, a: int, n: int, b: int, k: int, base: int, values: seq<int>, e: Entry)
    requires OnlyWrote(m, m', a, n, b, k) && Holds(m, base, values, e)
    requires Apart(a, n, base, 4 * |values|) && Apart(b, k, base, 4 * |values|)
    ensures Holds(m', base, values, e)
  {
    hide FromLittleEndian;
    forall j | 0 <= j < |values|
      ensures ReadS32(m', Cell(base, j), e) == Ok(values[j])
    {
      var address := Cell(base, j);
      assert ReadS32(m, address, e) == Ok(values[j]);
      assert m'.data[address..address + 4] == m.data[address..address + 4];
    }
  }

  /** Where a kernel call finds and leaves its data. */
  datatype Layout = Layout(history: int, input: int, output: int)

  /** The regions are separate, in the scratch window and above the tables. */
  ghost predicate Separate(m: Memory, e: Entry, at: Layout, order: nat, count: nat) {
    && Apart(at.history, 4 * order, at.input, 4 * count)
    && Apart(at.history, 4 * order, at.output, 4 * count)
    && Apart(at.input, 4 * count, at.output, 4 * count)
    && m.tableBytes <= e.scratchBase && e.scratchBase + e.scratchBytes <= LOCAL_DATA_BYTES
    && (count > 0 ==> e.scratchBase <= at.output && at.output + 4 * count <= e.scratchBase + e.scratchBytes)
  }

  ghost predicate Loaded(m: Memory, e: Entry, at: Layout, history: seq<int>, residuals: seq<int>) {
    Holds(m, at.history, history, e) && Holds(m, at.input, residuals, e) && Separate(m, e, at, |history|, |residuals|)
  }

  lemma StoreFits(m: Memory, address: int, value: int, e: Entry)
    requires m.tableBytes <= e.scratchBase <= address
      && address + 4 <= e.scratchBase + e.scratchBytes <= LOCAL_DATA_BYTES
    ensures WriteS32(m, address, value, e).Ok?
  {
  }

  lemma HeldIsS32(m: Memory, address: int, value: int, e: Entry)
    requires ReadS32(m, address, e) == Ok(value)
    ensures InS32(value) && e.scratchBase <= address && address + 4 <= e.scratchBase + e.scratchBytes
  {
  }

  /** The history a kernel saves holds 32-bit samples. */
  lemma {:induction false} KernelStaysS32(p: Predictor, history: seq<int>, residuals: seq<int>)
    requires |history| == p.Order() && p.Valid() && forall k :: 0 <= k < |history| ==> InS32(history[k])
    ensures var r := KernelRun(p, history, residuals);
      r.Some? ==>
        && |r.value.0| == |residuals| && |r.value.1| == |history|
        && (forall k :: 0 <= k < |history| ==> InS32(r.value.1[k]))
    decreases |residuals|
  {
    hide KernelPredict;
    if residuals == [] {
    } else {
      var value := KernelPredict(p, history) + residuals[0];
      if InS32(value) {
        KernelStaysS32(p, Shift(history, value), residuals[1..]);
      }
    }
  }

  // ---------------------------------------------------------------- Words in sequence

  /** The words from `address` on, read behind the ones got so far. */
  function WordsFrom(m: Memory, address: int, got: seq<int>, count: nat, e: Entry, table: bool)
    : (r: Result<seq<int>, Fault>)
    requires |got| <= count
    ensures r.Ok? ==> |r.value| == count && got <= r.value
    ensures r.Ok? ==> forall k :: |got| <= k < count ==> InS32(r.value[k])
    ensures r.Err? ==> r.error == RANGE_FAULT
    decreases count - |got|
  {
    if |got| == count then Ok(got)
    else
      match Read(m, Cell(address, |got|), 4, e, table)
      case Err(fault) => Err(fault)
      case Ok(bytes) => WordsFrom(m, address, got + [Signed32(FromLittleEndian(bytes))], count, e, table)
  }

  lemma {:induction false} WordsHeld(m: Memory, address: int, values: seq<int>, e: Entry, k: nat)
    requires Holds(m, address, values, e) && k <= |values|
    ensures WordsFrom(m, address, values[..k], |values|, e, false) == Ok(values)
    decreases |values| - k
  {
    if k == |values| {
      assert values[..k] == values;
    } else {
      assert ReadS32(m, Cell(address, k), e) == Ok(values[k]);
      assert values[..k] + [values[k]] == values[..k + 1];
      WordsHeld(m, address, values, e, k + 1);
    }
  }

  method ReadWords(m: Memory, address: int, count: nat, e: Entry) returns (r: Result<seq<int>, Fault>)
    ensures r == WordsFrom(m, address, [], count, e, false)
  {
    var values: seq<int> := [];
    for k := 0 to count
      invariant |values| == k
      invariant WordsFrom(m, address, values, count, e, false) == WordsFrom(m, address, [], count, e, false)
    {
      var value := ReadS32(m, Cell(address, k), e);
      if value.Err? {
        return Err(value.error);
      }
      values := values + [value.value];
    }
    r := Ok(values);
  }

  /** Stores the values from the `k`-th on. */
  function StoreFrom(m: Memory, address: int, values: seq<int>, e: Entry, k: nat): (Memory, Option<Fault>)
    requires k <= |values|
    decreases |values| - k
  {
    if k == |values| then (m, None)
    else
      match WriteS32(m, Cell(address, k), values[k], e)
      case Err(fault) => (m, Some(fault))
      case Ok(m') => StoreFrom(m', address, values, e, k + 1)
  }

  /** In a window above the tables every store succeeds. */
  lemma {:induction false} StoreFromHolds(m0: Memory, m: Memory, address: int, values: seq<int>, e: Entry, k: nat)
    requires k <= |values| && (forall j :: 0 <= j < |values| ==> InS32(values[j]))
    requires |values| > 0 ==>
      m0.tableBytes <= e.scratchBase <= address && address + 4 * |values| <= e.scratchBase + e.scratchBytes
      && e.scratchBase + e.scratchBytes <= LOCAL_DATA_BYTES
    requires Holds(m, address, values[..k], e) && OnlyWrote(m0, m, address, 4 * |values|, address, 4 * |values|)
    ensures var (m', fault) := StoreFrom(m, address, values, e, k);
      fault.None? && Holds(m', address, values, e) && OnlyWrote(m0, m', address, 4 * |values|, address, 4 * |values|)
    decreases |values| - k
  {
    hide WriteS32, ReadS32;
    if k == |values| {
      assert values[..k] == values;
    } else {
      StoreFits(m, Cell(address, k), values[k], e);
      StoreExtends(m, address, values[..k], values[k], e);
      StoreWrites(m0, m, Cell(address, k), values[k], e, address, 4 * |values|, address, 4 * |values|);
      assert values[..k + 1] == values[..k] + [values[k]];
      StoreFromHolds(m0, WriteS32(m, Cell(address, k), values[k], e).value, address, values, e, k + 1);
    }
  }

  /** Writes the history back. */
  method WriteWords(m0: Memory, address: int, values: seq<int>, e: Entry) returns (m: Memory, fault: Option<Fault>)
    ensures (m, fault) == StoreFrom(m0, address, values, e, 0)
  {
    hide WriteS32;
    m, fault := m0, None;
    for k := 0 to |values|
      invariant fault.None? && StoreFrom(m, address, values, e, k) == StoreFrom(m0, address, values, e, 0)
    {
      var stored := WriteS32(m, Cell(address, k), values[k], e);
      if stored.Err? {
        fault := Some(stored.error);
        return;
      }
      m := stored.value;
    }
  }

  /** The 72-bit accumulator of the linear predictor overflows. */
  predicate Overflows(p: Predictor, history: seq<int>)
    requires |history| == p.Order()
  {
    p.Lpc? && !InAccumulator(Dot(p.coefficients, history))
  }

  lemma NeverOverflows(p: Predictor, history: seq<int>)
    requires |history| == p.Order() && p.Words() && forall k :: 0 <= k < |history| ==> InS32(history[k])
    ensures !Overflows(p, history)
  {
    if p.Lpc? {
      AccumulatorNeverOverflows(p.coefficients, history);
    }
  }

  lemma AccessFaults(m: Memory, address: int, e: Entry)
    ensures ReadS32(m, address, e).Err? ==> ReadS32(m, address, e).error == RANGE_FAULT
  {
  }

  lemma StoreFaults(m: Memory, address: int, value: int, e: Entry)
    ensures WriteS32(m, address, value, e).Err? ==> WriteS32(m, address, value, e).error == RANGE_FAULT
  {
  }

  lemma ShiftKeepsS32(history: seq<int>, value: int)
    requires InS32(value) && forall k :: 0 <= k < |history| ==> InS32(history[k])
    ensures var h := Shift(history, value); forall k :: 0 <= k < |h| ==> InS32(h[k])
  {
  }

  /** The samples from the `index`-th on, and then the history. */
  function PredictFrom(m: Memory, e: Entry, p: Predictor, at: Layout, count: nat, history: seq<int>, index: nat)
    : (Memory, Option<Fault>)
    requires p.Valid() && |history| == p.Order() && index <= count
    decreases count - index
  {
    if index == count then StoreFrom(m, at.history, history, e, 0)
    else if Overflows(p, history) then (m, Some(ACCUMULATOR_FAULT))
    else
      match ReadS32(m, Cell(at.input, index), e)
      case Err(fault) => (m, Some(fault))
      case Ok(residual) =>
        var value := KernelPredict(p, history) + residual;
        if !InS32(value) then (m, Some(SAMPLE_FAULT))
        else
          match WriteS32(m, Cell(at.output, index), value, e)
          case Err(fault) => (m, Some(fault))
          case Ok(m') => PredictFrom(m', e, p, at, count, Shift(history, value), index + 1)
  }

  /** One FIXED or LPC call on resolved operands. */
  function Call(m: Memory, e: Entry, p: Predictor, at: Layout, count: nat): (Memory, Option<Fault>)
    requires p.Valid()
  {
    match WordsFrom(m, at.history, [], p.Order(), e, false)
    case Err(fault) => (m, Some(fault))
    case Ok(history) => PredictFrom(m, e, p, at, count, history, 0)
  }

  method PredictKernel(m0: Memory, e: Entry, p: Predictor, at: Layout, count: nat)
    returns (m: Memory, fault: Option<Fault>)
    requires p.Valid()
    ensures (m, fault) == Call(m0, e, p, at, count)
  {
    hide WriteS32, ReadS32, KernelPredict, Overflows;
    m, fault := m0, None;
    var read := ReadWords(m, at.history, p.Order(), e);
    if read.Err? {
      return m, Some(read.error);
    }
    var history := read.value;
    for index := 0 to count
      invariant |history| == p.Order() && fault.None?
      invariant PredictFrom(m, e, p, at, count, history, index) == Call(m0, e, p, at, count)
    {
      if Overflows(p, history) {
        return m, Some(ACCUMULATOR_FAULT);
      }
      var predictor := KernelPredict(p, history);
      var input := ReadS32(m, Cell(at.input, index), e);
      if input.Err? {
        return m, Some(input.error);
      }
      var value := predictor + input.value;
      if !InS32(value) {
        return m, Some(SAMPLE_FAULT);
      }
      var stored := WriteS32(m, Cell(at.output, index), value, e);
      if stored.Err? {
        return m, Some(stored.error);
      }
      m := stored.value;
      history := Shift(history, value);
    }
    m, fault := WriteWords(m, at.history, history, e);
  }

  /** Every fault is a range fault or a sample fault. */
  predicate Plain(fault: Option<Fault>) { fault.None? || fault == Some(RANGE_FAULT) || fault == Some(SAMPLE_FAULT) }

  lemma {:induction false} StoreFromPlain(m: Memory, address: int, values: seq<int>, e: Entry, k: nat)
    requires k <= |values|
    ensures Plain(StoreFrom(m, address, values, e, k).1)
    decreases |values| - k
  {
    hide WriteS32;
    if k == |values| {
    } else {
      StoreFaults(m, Cell(address, k), values[k], e);
      if WriteS32(m, Cell(address, k), values[k], e).Ok? {
        StoreFromPlain(WriteS32(m, Cell(address, k), values[k], e).value, address, values, e, k + 1);
      }
    }
  }

  lemma {:induction false} PredictFromPlain(
    m: Memory, e: Entry, p: Predictor, at: Layout, count: nat, history: seq<int>, index: nat)
    requires p.Valid() && p.Words() && |history| == p.Order() && index <= count
    requires forall k :: 0 <= k < |history| ==> InS32(history[k])
    ensures Plain(PredictFrom(m, e, p, at, count, history, index).1)
    decreases count - index
  {
    hide WriteS32, KernelPredict, Overflows, Shift;
    if index == count {
      StoreFromPlain(m, at.history, history, e, 0);
    } else {
      NeverOverflows(p, history);
      if ReadS32(m, Cell(at.input, index), e).Ok? {
        var value := KernelPredict(p, history) + ReadS32(m, Cell(at.input, index), e).value;
        StoreFaults(m, Cell(at.output, index), value, e);
        if InS32(value) && WriteS32(m, Cell(at.output, index), value, e).Ok? {
          ShiftKeepsS32(history, value);
          PredictFromPlain(WriteS32(m, Cell(at.output, index), value, e).value, e, p, at, count, Shift(history, value),
            index + 1);
        }
      }
    }
  }

  /** The accumulator fault is never raised, whatever the memory holds. */
  lemma CallNeverOverflows(m: Memory, e: Entry, p: Predictor, at: Layout, count: nat)
    requires p.Valid() && p.Words()
    ensures Plain(Call(m, e, p, at, count).1)
  {
    hide PredictFrom;
    var read := WordsFrom(m, at.history, [], p.Order(), e, false);
    if read.Ok? {
      PredictFromPlain(m, e, p, at, count, read.value, 0);
    }
  }

  /** What a call leaves behind when the prediction kernel's outcome is `goal`. */
  ghost predicate Delivers(
    m0: Memory, e: Entry, p: Predictor, at: Layout, count: nat, goal: Option<(seq<int>, seq<int>)>,
      result: (Memory, Option<Fault>))
  {
    match goal
    case None => result.1 == Some(SAMPLE_FAULT)
    case Some((samples, last)) =>
      && result.1.None? && Holds(result.0, at.output, samples, e) && Holds(result.0, at.history, last, e)
      && OnlyWrote(m0, result.0, at.output, 4 * count, at.history, 4 * p.Order())
  }

  lemma {:induction false} PredictFromPerforms(
    m0: Memory, m: Memory, e: Entry, p: Predictor, at: Layout, history: seq<int>, samples: seq<int>,
      residuals: seq<int>, index: nat)
    requires p.Valid() && p.Words() && Progress(m0, m, e, p, at, history, samples, residuals, index)
    ensures Delivers(m0, e, p, at, |residuals|, Resumed(p, history, samples, residuals, index),
                     PredictFrom(m, e, p, at, |residuals|, history, index))
    decreases |residuals| - index
  {
    hide WriteS32, ReadS32, KernelPredict, Shift, Overflows, KernelRun, Resumed;
    if index == |residuals| {
      HistoryFits(m0, m, e, p, at, history, samples, residuals);
      StoreFromHolds(m, m, at.history, history, e, 0);
      KernelEnds(m0, m, StoreFrom(m, at.history, history, e, 0).0, e, p, at, history, samples, residuals);
    } else {
      NeverOverflows(p, history);
      assert ReadS32(m, Cell(at.input, index), e) == Ok(residuals[index]);
      var value := KernelPredict(p, history) + residuals[index];
      ResumeStep(p, history, samples, residuals, index);
      if InS32(value) {
        ProgressStep(m0, m, e, p, at, history, samples, residuals, index, value);
        var m' := WriteS32(m, Cell(at.output, index), value, e).value;
        PredictFromPerforms(m0, m', e, p, at, Shift(history, value), samples + [value], residuals, index + 1);
      }
    }
  }

  /** On separate regions a call writes the samples and the history of `KernelRun`,
      touches nothing else, and fails exactly when a sample leaves the 32-bit range. */
  lemma CallPerforms(m0: Memory, e: Entry, p: Predictor, at: Layout, history: seq<int>, residuals: seq<int>)
    requires p.Valid() && p.Words() && |history| == p.Order() && Loaded(m0, e, at, history, residuals)
    ensures Delivers(m0, e, p, at, |residuals|, KernelRun(p, history, residuals), Call(m0, e, p, at, |residuals|))
  {
    hide ReadS32, KernelRun, Resumed, PredictFrom;
    KernelStarts(m0, e, p, at, history, residuals);
    assert history[..0] == [];
    WordsHeld(m0, at.history, history, e, 0);
    PredictFromPerforms(m0, m0, e, p, at, history, [], residuals, 0);
  }

  /** The outcome of a kernel call that has produced `samples` so far. */
  ghost function Resumed(p: Predictor, history: seq<int>, samples: seq<int>, residuals: seq<int>,
    index: nat): Option<(seq<int>, seq<int>)>
    requires |history| == p.Order() && p.Valid() && index <= |residuals|
  {
    match KernelRun(p, history, residuals[index..])
    case None => None
    case Some((more, last)) => Some((samples + more, last))
  }

  lemma ResumeStep(p: Predictor, history: seq<int>, samples: seq<int>, residuals: seq<int>, index: nat)
    requires |history| == p.Order() && p.Valid() && index < |residuals|
    ensures var value := KernelPredict(p, history) + residuals[index];
      Resumed(p, history, samples, residuals, index) ==
        if InS32(value) then Resumed(p, Shift(history, value), samples + [value], residuals, index + 1) else None
  {
    hide KernelPredict, Shift;
    var value := KernelPredict(p, history) + residuals[index];
    assert residuals[index..][1..] == residuals[index + 1..];
    if InS32(value) && KernelRun(p, Shift(history, value), residuals[index + 1..]).Some? {
      var more := KernelRun(p, Shift(history, value), residuals[index + 1..]).value.0;
      assert samples + [value] + more == samples + ([value] + more);
    }
  }

  /** The memory in the middle of a kernel call. */
  ghost predicate Progress(
    m0: Memory, m: Memory, e: Entry, p: Predictor, at: Layout, history: seq<int>, samples: seq<int>,
      residuals: seq<int>, index: nat)
  {
    && index <= |residuals| && |samples| == index && |history| == p.Order()
    && Separate(m0, e, at, p.Order(), |residuals|) && m.tableBytes == m0.tableBytes
    && Holds(m, at.input, residuals, e) && Holds(m, at.output, samples, e)
    && (forall k :: 0 <= k < |history| ==> InS32(history[k]))
    && OnlyWrote(m0, m, at.output, 4 * |residuals|, at.history, 4 * p.Order())
    && (p.Order() > 0 ==> e.scratchBase <= at.history && at.history + 4 * p.Order() <= e.scratchBase + e.scratchBytes)
  }

  lemma KernelStarts(m0: Memory, e: Entry, p: Predictor, at: Layout, history: seq<int>, residuals: seq<int>)
    requires p.Valid() && |history| == p.Order() && Loaded(m0, e, at, history, residuals)
    ensures Progress(m0, m0, e, p, at, history, [], residuals, 0)
    ensures Resumed(p, history, [], residuals, 0) == KernelRun(p, history, residuals)
  {
    hide ReadS32, KernelRun;
    forall k | 0 <= k < |history|
      ensures InS32(history[k]) && e.scratchBase <= Cell(at.history, k)
        && Cell(at.history, k) + 4 <= e.scratchBase + e.scratchBytes
    {
      assert ReadS32(m0, Cell(at.history, k), e) == Ok(history[k]);
      HeldIsS32(m0, Cell(at.history, k), history[k], e);
    }
    if |history| > 0 {
      assert e.scratchBase <= Cell(at.history, 0);
      assert Cell(at.history, |history| - 1) + 4 <= e.scratchBase + e.scratchBytes;
    }
    assert residuals[0..] == residuals;
    if KernelRun(p, history, residuals).Some? {
      assert [] + KernelRun(p, history, residuals).value.0 == KernelRun(p, history, residuals).value.0;
    }
  }

  lemma ProgressStep(
    m0: Memory, m: Memory, e: Entry, p: Predictor, at: Layout, history: seq<int>, samples: seq<int>,
      residuals: seq<int>, index: nat, value: int)
    requires Progress(m0, m, e, p, at, history, samples, residuals, index) && index < |residuals| && InS32(value)
    ensures WriteS32(m, Cell(at.output, index), value, e).Ok?
    ensures Progress(m0, WriteS32(m, Cell(at.output, index), value, e).value, e, p, at, Shift(history, value),
      samples + [value], residuals, index + 1)
  {
    hide WriteS32, ReadS32;
    StoreFits(m, Cell(at.output, index), value, e);
    StoreExtends(m, at.output, samples, value, e);
    StoreKeeps(m, Cell(at.output, index), value, e, at.input, residuals);
    StoreWrites(m0, m, Cell(at.output, index), value, e, at.output, 4 * |residuals|, at.history, 4 * p.Order());
  }

  lemma HistoryFits(
    m0: Memory, m: Memory, e: Entry, p: Predictor, at: Layout, history: seq<int>, samples: seq<int>,
      residuals: seq<int>)
    requires Progress(m0, m, e, p, at, history, samples, residuals, |residuals|)
    ensures |history| > 0 ==> m.tableBytes <= e.scratchBase <= at.history
    ensures |history| > 0 ==> at.history + 4 * |history| <= e.scratchBase + e.scratchBytes <= LOCAL_DATA_BYTES
  {
    hide ReadS32;
  }

  lemma KernelEnds(
    m0: Memory, before: Memory, m: Memory, e: Entry, p: Predictor, at: Layout, history: seq<int>, samples: seq<int>,
      residuals: seq<int>)
    requires Progress(m0, before, e, p, at, history, samples, residuals, |residuals|)
    requires OnlyWrote(before, m, at.history, 4 * |history|, at.history, 4 * |history|)
      && Holds(m, at.history, history, e)
    requires p.Valid()
    ensures Holds(m, at.output, samples, e) && OnlyWrote(m0, m, at.output, 4 * |residuals|, at.history, 4 * p.Order())
    ensures Resumed(p, history, samples, residuals, |residuals|) == Some((samples, history))
  {
    hide ReadS32;
    WroteElsewhere(before, m, at.history, 4 * |history|, at.history, 4 * |history|, at.output, samples, e);
    assert residuals[|residuals|..] == [] && samples + [] == samples;
  }

  /** Behind the newest samples of the history and these samples there is no other word of
      32 bits that continues them with the residuals. */
  ghost predicate Continued(p: Predictor, history: seq<int>, samples: seq<int>, residuals: seq<int>)
    requires |history| == p.Order()
  {
    Follows(p, OldestFirst(history) + samples, |history|, residuals)
    && forall k :: 0 <= k < |samples| ==> InS32(samples[k])
  }

  /** What lies in memory after a call: behind `output` the samples that continue the history
      with the residuals, and in the history the newest samples of both. */
  ghost predicate Restored(m: Memory, e: Entry, p: Predictor, at: Layout, history: seq<int>, residuals: seq<int>,
    samples: seq<int>)
    requires |history| == p.Order()
  {
    && Continued(p, history, samples, residuals) && Holds(m, at.output, samples, e)
    && Holds(m, at.history, Recent(OldestFirst(history) + samples, |history|), e)
  }

  /** A call on separate regions leaves the continuation of the history in memory, and
      raises the sample fault exactly when no continuation fits 32 bits. */
  lemma CallRestores(m0: Memory, e: Entry, p: Predictor, at: Layout, history: seq<int>, residuals: seq<int>)
    returns (samples: seq<int>)
    requires p.Valid() && p.Words() && |history| == p.Order() && Loaded(m0, e, at, history, residuals)
    ensures var (m, fault) := Call(m0, e, p, at, |residuals|);
      if fault.None? then
        Restored(m, e, p, at, history, residuals, samples)
        && OnlyWrote(m0, m, at.output, 4 * |residuals|, at.history, 4 * |history|)
      else fault == Some(SAMPLE_FAULT) && !exists some :: Continued(p, history, some, residuals)
  {
    hide ReadS32, KernelRun, Call, Follows, OnlyWrote;
    CallPerforms(m0, e, p, at, history, residuals);
    var goal := KernelRun(p, history, residuals);
    samples := if goal.Some? then goal.value.0 else [];
    if goal.Some? {
      KernelIff(p, history, residuals, samples, goal.value.1);
      assert goal.value.1 == Recent(OldestFirst(history) + samples, |history|);
    } else {
      forall some
        ensures !Continued(p, history, some, residuals)
      {
        KernelIff(p, history, residuals, some, Recent(OldestFirst(history) + some, |history|));
      }
    }
  }

  // ---------------------------------------------------------------- Calls in sequence

  lemma HoldsPart(m: Memory, base: int, values: seq<int>, e: Entry, from: nat, to: nat)
    requires Holds(m, base, values, e) && from <= to <= |values|
    ensures Holds(m, Cell(base, from), values[from..to], e)
  {
    hide ReadS32;
    forall k | 0 <= k < to - from
      ensures ReadS32(m, Cell(Cell(base, from), k), e) == Ok(values[from..to][k])
    {
      assert Cell(Cell(base, from), k) == Cell(base, from + k);
    }
  }

  lemma HoldsAppend(m: Memory, base: int, a: seq<int>, b: seq<int>, e: Entry)
    requires Holds(m, base, a, e) && Holds(m, Cell(base, |a|), b, e)
    ensures Holds(m, base, a + b, e)
  {
    hide ReadS32;
    forall k | 0 <= k < |a + b|
      ensures ReadS32(m, Cell(base, k), e) == Ok((a + b)[k])
    {
      if k >= |a| {
        assert Cell(base, k) == Cell(Cell(base, |a|), k - |a|);
      }
    }
  }

  /** The state between two calls: everything up to `done` is restored. */
  ghost predicate Between(
    m0: Memory, m: Memory, e: Entry, p: Predictor, at: Layout, history0: seq<int>, residuals: seq<int>,
    done: nat, written: seq<int>, history: seq<int>)
    requires p.Valid()
  {
    && |history0| == |history| == p.Order() && done <= |residuals| && |written| == done
    && Separate(m0, e, at, p.Order(), |residuals|) && m.tableBytes == m0.tableBytes
    && KernelRun(p, history0, residuals[..done]) == Some((written, history))
    && Holds(m, at.input, residuals, e) && Holds(m, at.output, written, e) && Holds(m, at.history, history, e)
  }

  function Chunk(at: Layout, done: nat): Layout { Layout(at.history, Cell(at.input, done), Cell(at.output, done)) }

  lemma ChunkLoaded(
    m0: Memory, m: Memory, e: Entry, p: Predictor, at: Layout, history0: seq<int>, residuals: seq<int>,
    done: nat, written: seq<int>, history: seq<int>, count: nat)
    requires p.Valid() && Between(m0, m, e, p, at, history0, residuals, done, written, history)
      && done + count <= |residuals|
    ensures Loaded(m, e, Chunk(at, done), history, residuals[done..done + count])
  {
    hide ReadS32, KernelRun;
    HoldsPart(m, at.input, residuals, e, done, done + count);
  }

  lemma ChunkRuns(p: Predictor, history0: seq<int>, residuals: seq<int>, done: nat, count: nat, written: seq<int>,
    history: seq<int>)
    requires p.Valid() && |history0| == |history| == p.Order() && done + count <= |residuals|
    requires KernelRun(p, history0, residuals[..done]) == Some((written, history))
    ensures match KernelRun(p, history, residuals[done..done + count])
      case None => KernelRun(p, history0, residuals).None?
      case Some((samples, last)) =>
        KernelRun(p, history0, residuals[..done + count]) == Some((written + samples, last)) && |last| == p.Order()
  {
    hide KernelRun;
    var a, b, c := residuals[..done], residuals[done..done + count], residuals[done + count..];
    assert a + b == residuals[..done + count] && a + b + c == residuals;
    ThreeChunks(p, history0, a, b, c);
  }

  lemma ThreeChunks(p: Predictor, history0: seq<int>, a: seq<int>, b: seq<int>, c: seq<int>)
    requires p.Valid() && |history0| == p.Order() && KernelRun(p, history0, a).Some?
    ensures var (written, history) := KernelRun(p, history0, a).value;
      && |history| == p.Order()
      && match KernelRun(p, history, b)
         case None => KernelRun(p, history0, a + b + c).None?
         case Some((samples, last)) =>
           KernelRun(p, history0, a + b) == Some((written + samples, last)) && |last| == p.Order()
  {
    hide KernelRun;
    KernelChunks(p, history0, a, b);
    KernelChunks(p, KernelRun(p, history0, a).value.1, b, []);
    KernelChunks(p, history0, a + b, c);
  }

  lemma ChunkWritten(
    m0: Memory, m: Memory, m': Memory, e: Entry, p: Predictor, at: Layout, history0: seq<int>, residuals: seq<int>,
    done: nat, written: seq<int>, history: seq<int>, count: nat, samples: seq<int>, last: seq<int>)
    requires p.Valid() && Between(m0, m, e, p, at, history0, residuals, done, written, history)
      && done + count <= |residuals|
    requires KernelRun(p, history, residuals[done..done + count]) == Some((samples, last)) && |samples| == count
    requires Holds(m', Cell(at.output, done), samples, e) && Holds(m', at.history, last, e)
    requires OnlyWrote(m, m', Cell(at.output, done), 4 * count, at.history, 4 * p.Order())
    ensures Between(m0, m', e, p, at, history0, residuals, done + count, written + samples, last)
  {
    hide ReadS32, KernelRun;
    ChunkRuns(p, history0, residuals, done, count, written, history);
    WroteElsewhere(m, m', Cell(at.output, done), 4 * count, at.history, 4 * p.Order(), at.input, residuals, e);
    WroteElsewhere(m, m', Cell(at.output, done), 4 * count, at.history, 4 * p.Order(), at.output, written, e);
    HoldsAppend(m', at.output, written, samples, e);
  }

  /** The kernel called over any split of the residuals writes the samples and the
      final history of the codec's restoration loop, and reports the range fault in
      exactly the cases the codec does. */
  method RestoreInChunks(
    m0: Memory, e: Entry, p: Predictor, at: Layout, chunks: seq<nat>, ghost warmup: seq<int>, ghost residuals: seq<int>)
    returns (m: Memory, fault: Option<Fault>)
    requires p.Valid() && p.Words()
    ensures (p.Order() <= |warmup| && Total(chunks) == |residuals|
      && Loaded(m0, e, at, Recent(warmup, p.Order()), residuals)) ==>
        match Restore(p, warmup, residuals)
        case None => fault == Some(SAMPLE_FAULT)
        case Some(all) =>
          && fault.None? && |all| == |warmup| + |residuals|
          && Holds(m, at.output, all[|warmup|..], e) && Holds(m, at.history, Recent(all, p.Order()), e)
  {
    hide ReadS32, KernelRun, Restore, Between, Loaded, Call, Holds, OnlyWrote;
    m, fault := m0, None;
    ghost var ok := p.Order() <= |warmup| && Total(chunks) == |residuals|
      && Loaded(m0, e, at, Recent(warmup, p.Order()), residuals);
    ghost var history0 := if ok then Recent(warmup, p.Order()) else [];
    ghost var written: seq<int>, history := [], history0;
    var done: nat := 0;
    if ok {
      ChunksStart(m0, e, p, at, history0, residuals);
      KernelRefinesCodec(p, warmup, residuals);
    }
    assert chunks[0..] == chunks;
    for k := 0 to |chunks|
      invariant fault.None? && (ok ==> done + Total(chunks[k..]) == |residuals|)
      invariant ok ==> Between(m0, m, e, p, at, history0, residuals, done, written, history)
    {
      var count := chunks[k];
      assert chunks[k..][1..] == chunks[k + 1..];
      ghost var before := m;
      ghost var part := if ok then residuals[done..done + count] else [];
      if ok {
        BetweenSizes(m0, m, e, p, at, history0, residuals, done, written, history);
        ChunkLoaded(m0, m, e, p, at, history0, residuals, done, written, history, count);
        ChunkRuns(p, history0, residuals, done, count, written, history);
        BetweenS32(m0, m, e, p, at, history0, residuals, done, written, history, part);
        CallPerforms(m, e, p, Chunk(at, done), history, part);
      }
      m, fault := PredictKernel(m, e, p, Chunk(at, done), count);
      if fault.Some? {
        return;
      }
      if ok {
        var (samples, last) := KernelRun(p, history, part).value;
        ChunkWritten(m0, before, m, e, p, at, history0, residuals, done, written, history, count, samples, last);
        written, history := written + samples, last;
      }
      done := done + count;
    }
    if ok {
      ChunksEnd(m0, m, e, p, at, history0, residuals, written, history);
    }
  }

  lemma ChunksStart(m0: Memory, e: Entry, p: Predictor, at: Layout, history: seq<int>, residuals: seq<int>)
    requires p.Valid() && |history| == p.Order() && Loaded(m0, e, at, history, residuals)
    ensures Between(m0, m0, e, p, at, history, residuals, 0, [], history)
  {
    hide ReadS32;
    assert residuals[..0] == [];
  }

  lemma BetweenSizes(
    m0: Memory, m: Memory, e: Entry, p: Predictor, at: Layout, history0: seq<int>, residuals: seq<int>,
    done: nat, written: seq<int>, history: seq<int>)
    requires p.Valid() && Between(m0, m, e, p, at, history0, residuals, done, written, history)
    ensures |history0| == |history| == p.Order()
      && KernelRun(p, history0, residuals[..done]) == Some((written, history))
  {
    hide ReadS32, KernelRun;
  }

  lemma BetweenS32(
    m0: Memory, m: Memory, e: Entry, p: Predictor, at: Layout, history0: seq<int>, residuals: seq<int>,
    done: nat, written: seq<int>, history: seq<int>, part: seq<int>)
    requires p.Valid() && Between(m0, m, e, p, at, history0, residuals, done, written, history)
    ensures KernelRun(p, history, part).Some? ==> |KernelRun(p, history, part).value.0| == |part|
  {
    hide ReadS32, KernelRun;
    forall k | 0 <= k < |history|
      ensures InS32(history[k])
    {
      assert ReadS32(m, Cell(at.history, k), e) == Ok(history[k]);
      HeldIsS32(m, Cell(at.history, k), history[k], e);
    }
    KernelStaysS32(p, history, part);
  }

  lemma ChunksEnd(
    m0: Memory, m: Memory, e: Entry, p: Predictor, at: Layout, history0: seq<int>, residuals: seq<int>,
      written: seq<int>, history: seq<int>)
    requires p.Valid() && Between(m0, m, e, p, at, history0, residuals, |residuals|, written, history)
    ensures KernelRun(p, history0, residuals) == Some((written, history))
    ensures Holds(m, at.output, written, e) && Holds(m, at.history, history, e) && |written| == |residuals|
  {
    hide ReadS32, KernelRun;
    assert residuals[..|residuals|] == residuals;
  }
}

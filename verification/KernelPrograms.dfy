/** The FIXED and LPC kernels as programs of memory accesses, and such programs as
    scripts of the primitive engine: the results about the kernels and the theorems
    about the machine speak of the same runs. */
module KernelPrograms {
  import opened Common
  import opened Isa
  import opened Memory
  import opened Prediction
  import opened Kernels
  import opened Operands
  import T = Transport
  import Machine
  import Isolation
  import Primitives
  import Sequencer

  // ---------------------------------------------------------------- Programs

  /** Accesses in sequence, each chosen from the responses so far. */
  datatype Program =
    | Finish(outcome: Result<nat, Fault>)
    | Ask(action: Action, next: Response -> Program)

  /** The memory and what is left of the program after at most `steps` accesses. */
  function Run(p: Program, m: Memory, e: Entry, steps: nat): (Memory, Program)
    decreases steps
  {
    if steps == 0 || p.Finish? then (m, p)
    else
      var (m', response) := Act(m, e, p.action);
      Run(p.next(response), m', e, steps - 1)
  }

  /** What is left of the program after these responses. */
  function Replay(p: Program, answers: seq<Response>): Program
    decreases |answers|
  {
    if answers == [] || p.Finish? then p else Replay(p.next(answers[0]), answers[1..])
  }

  function ClientOf(p: Program): Client {
    (answers: seq<Response>) =>
      match Replay(p, answers) case Finish(_) => None case Ask(action, _) => Some(action)
  }

  lemma {:induction false} ReplayMore(p: Program, answers: seq<Response>, response: Response)
    ensures Replay(p, answers + [response]) ==
      match Replay(p, answers) case Finish(_) => Replay(p, answers) case Ask(_, next) => next(response)
    decreases |answers|
  {
    if answers == [] || p.Finish? {
      assert answers == [] && p.Ask? ==> Replay(p.next(response), []) == p.next(response);
      assert (answers + [response])[0] == response || answers != [];
    } else {
      assert (answers + [response])[1..] == answers[1..] + [response];
      ReplayMore(p.next(answers[0]), answers[1..], response);
    }
  }

  /** The session of a program's client is the run of the program. */
  lemma {:induction false} SessionIsRun(p: Program, m: Memory, e: Entry, answers: seq<Response>, steps: nat)
    ensures var (m', all) := Session(ClientOf(p), m, e, answers, steps);
      (m', Replay(p, all)) == Run(Replay(p, answers), m, e, steps)
    decreases steps
  {
    hide Replay;
    var left := Replay(p, answers);
    if steps > 0 && left.Ask? {
      var (m', response) := Act(m, e, left.action);
      ReplayMore(p, answers, response);
      SessionIsRun(p, m', e, answers + [response], steps - 1);
    }
  }

  /** Whatever the responses, every store is one aligned word and every fault is one that
      a kernel may raise. */
  ghost predicate Disciplined(p: Program, steps: nat)
    decreases steps
  {
    match p
    case Finish(outcome) => outcome.Err? ==> Primitives.Known(outcome.error)
    case Ask(action, next) =>
      steps == 0 ||
      (&& (action.Store? ==> action.address % 4 == 0 && |action.payload| == 4)
       && forall response :: Disciplined(next(response), steps - 1))
  }

  lemma {:induction false} StoresAreWhole(p: Program, m: Memory, e: Entry, answers: seq<Response>, steps: nat)
    requires Disciplined(Replay(p, answers), steps)
    ensures WholeWords(ClientOf(p), m, e, answers, steps)
    decreases steps
  {
    hide Replay;
    var left := Replay(p, answers);
    if steps > 0 && left.Ask? {
      var (m', response) := Act(m, e, left.action);
      if left.action.Store? {
        Isolation.AlignedCovers(m, left.action.address, 4);
      }
      ReplayMore(p, answers, response);
      StoresAreWhole(p, m', e, answers + [response], steps - 1);
    }
  }

  // ---------------------------------------------------------------- Building blocks

  const OUT_OF_RANGE: Program := Finish(Err(RANGE_FAULT))

  /** Checks a range. */
  function Checked(address: int, size: int, table: bool, rest: Program): Program {
    Ask(Check(address, size, table), (response: Response) => if response.Passed? then rest else OUT_OF_RANGE)
  }

  /** Reads a word. */
  function Fetch(address: int, table: bool, rest: word -> Program): Program {
    Ask(if table then ReadTable(address, 4) else ReadScratch(address, 4), (response: Response) =>
      if response.Data? && |response.bytes| == 4 then rest(FromLittleEndian(response.bytes)) else OUT_OF_RANGE)
  }

  /** Stores a word. */
  function Put(address: int, value: int, rest: Program): Program {
    Ask(Store(address, WordBytesLE(ToWord(value))), (response: Response) =>
      if response.Passed? then rest else OUT_OF_RANGE)
  }

  function FetchAll(address: int, got: seq<int>, count: nat, table: bool, rest: seq<int> -> Program): Program
    requires |got| <= count
    decreases count - |got|
  {
    if |got| == count then rest(got)
    else
      Fetch(Cell(address, |got|), table, (w: word) => FetchAll(address, got + [Signed32(w)], count, table, rest))
  }

  /** Stores the values from the `k`-th on and finishes. */
  function PutAll(address: int, values: seq<int>, k: nat, count: nat): Program
    requires k <= |values|
    decreases |values| - k
  {
    if k == |values| then Finish(Ok(count))
    else Put(Cell(address, k), values[k], PutAll(address, values, k + 1, count))
  }

  // ---------------------------------------------------------------- The prediction kernels

  /** The samples from the `index`-th on, and then the history. */
  function PredictLoop(p: Predictor, at: Layout, count: nat, history: seq<int>, index: nat): Program
    requires p.Valid() && |history| == p.Order() && index <= count
    decreases count - index
  {
    if index == count then PutAll(at.history, history, 0, count)
    else if Overflows(p, history) then Finish(Err(ACCUMULATOR_FAULT))
    else
      Fetch(Cell(at.input, index), false, (w: word) =>
        var value := KernelPredict(p, history) + Signed32(w);
        if !InS32(value) then Finish(Err(SAMPLE_FAULT))
        else Put(Cell(at.output, index), value, PredictLoop(p, at, count, Shift(history, value), index + 1)))
  }

  function CallProgram(p: Predictor, at: Layout, count: nat): Program
    requires p.Valid()
  {
    FetchAll(at.history, [], p.Order(), false, (history: seq<int>) =>
      if |history| == p.Order() then PredictLoop(p, at, count, history, 0) else OUT_OF_RANGE)
  }

  /** Checks a reference. */
  function Referred(reference: word, e: Entry, size: int, state: bool, rest: Program): Program {
    if BadReference(reference, state) then OUT_OF_RANGE
    else Checked(Referent(reference, e).0, size, Referent(reference, e).1, rest)
  }

  function FixedProgram(i: Instruction, a: Arrays, e: Entry): Program {
    var order := i.aux % 8;
    Fetch(a.parameter, false, (reference: word) =>
      Referred(reference, e, 4 * Max(order, 1), true,
        Checked(a.input, 4 * a.count, false,
          if order > 4 then OUT_OF_RANGE
          else CallProgram(Fixed(order), Layout(Referent(reference, e).0, a.input, a.output), a.count))))
  }

  function LpcProgram(i: Instruction, a: Arrays, e: Entry): Program {
    Fetch(a.parameter, false, (coefficients: word) =>
      Fetch(a.parameter + 4, false, (history: word) =>
        Fetch(a.parameter + 8, false, (shift: word) =>
          LpcBody(i.aux % 64, a, e, LpcBlock(coefficients, history, Signed32(shift))))))
  }

  /** Behind the parameter block. */
  function LpcBody(order: nat, a: Arrays, e: Entry, block: LpcBlock): Program {
    if !(-31 <= block.shift <= 31) then OUT_OF_RANGE
    else
      Referred(block.coefficients, e, 4 * order, false,
        Referred(block.history, e, 4 * order, true, LpcCall(order, a, e, block)))
  }

  function LpcCall(order: nat, a: Arrays, e: Entry, block: LpcBlock): Program {
    var (address, table) := Referent(block.coefficients, e);
    FetchAll(address, [], order, table, (values: seq<int>) =>
      CallProgram(Lpc(values, block.shift), Layout(Referent(block.history, e).0, a.input, a.output), a.count))
  }

  /** The FIXED and LPC instructions. */
  function PredictProgram(i: Instruction, r: T.Registers, e: Entry): Program {
    var a := ArraysAt(i, r, e);
    if Misaligned(a, e) then OUT_OF_RANGE
    else Checked(a.parameter, 4, false, if i.opcode == FIXED then FixedProgram(i, a, e) else LpcProgram(i, a, e))
  }

  function StepsFor(i: Instruction): nat { 7 + 3 * i.aux + 2 * i.immediate }

  // ---------------------------------------------------------------- Running them

  lemma RunChecked(m: Memory, e: Entry, address: int, size: int, table: bool, rest: Program, n: nat)
    requires n > 0
    ensures Run(Checked(address, size, table, rest), m, e, n) ==
      if InWindow(m, address, size, e, table) then Run(rest, m, e, n - 1) else (m, OUT_OF_RANGE)
  {
  }

  lemma RunFetch(m: Memory, e: Entry, address: int, table: bool, rest: word -> Program, n: nat)
    requires n > 0
    ensures Run(Fetch(address, table, rest), m, e, n) ==
      match Read(m, address, 4, e, table)
      case Err(_) => (m, OUT_OF_RANGE)
      case Ok(bytes) => Run(rest(FromLittleEndian(bytes)), m, e, n - 1)
  {
    hide FromLittleEndian;
  }

  lemma RunPut(m: Memory, e: Entry, address: int, value: int, rest: Program, n: nat)
    requires n > 0
    ensures Run(Put(address, value, rest), m, e, n) ==
      match WriteS32(m, address, value, e)
      case Err(_) => (m, OUT_OF_RANGE)
      case Ok(m') => Run(rest, m', e, n - 1)
  {
    hide WordBytesLE;
  }

  lemma {:induction false} RunFetchAll(
    m: Memory, e: Entry, address: int, got: seq<int>, count: nat, table: bool, rest: seq<int> -> Program, n: nat)
    requires |got| <= count && n >= count - |got|
    ensures Run(FetchAll(address, got, count, table, rest), m, e, n) ==
      match WordsFrom(m, address, got, count, e, table)
      case Err(_) => (m, OUT_OF_RANGE)
      case Ok(values) => Run(rest(values), m, e, n - (count - |got|))
    decreases count - |got|
  {
    hide Run, Fetch, FromLittleEndian;
    if |got| == count {
    } else {
      var read := Read(m, Cell(address, |got|), 4, e, table);
      RunFetch(m, e, Cell(address, |got|), table,
        (w: word) => FetchAll(address, got + [Signed32(w)], count, table, rest), n);
      if read.Ok? {
        RunFetchAll(m, e, address, got + [Signed32(FromLittleEndian(read.value))], count, table, rest, n - 1);
      }
    }
  }

  /** The result of a call as a finished program. */
  function Finished(result: (Memory, Option<Fault>), count: nat): (Memory, Program) {
    (result.0, Finish(if result.1.Some? then Err(result.1.value) else Ok(count)))
  }

  lemma {:induction false} RunPutAll(
    m: Memory, e: Entry, address: int, values: seq<int>, k: nat, count: nat, n: nat)
    requires k <= |values| && n >= |values| - k
    ensures Run(PutAll(address, values, k, count), m, e, n) == Finished(StoreFrom(m, address, values, e, k), count)
    decreases |values| - k
  {
    hide WriteS32, Put;
    if k == |values| {
    } else {
      RunPut(m, e, Cell(address, k), values[k], PutAll(address, values, k + 1, count), n);
      StoreFaults(m, Cell(address, k), values[k], e);
      var stored := WriteS32(m, Cell(address, k), values[k], e);
      if stored.Ok? {
        RunPutAll(stored.value, e, address, values, k + 1, count, n - 1);
      }
    }
  }

  /** The program does what the function on memories computes. */
  lemma {:induction false} RunPredictLoop(
    m: Memory, e: Entry, p: Predictor, at: Layout, count: nat, history: seq<int>, index: nat, n: nat)
    requires p.Valid() && |history| == p.Order() && index <= count && n >= 2 * (count - index) + p.Order()
    ensures Run(PredictLoop(p, at, count, history, index), m, e, n)
      == Finished(PredictFrom(m, e, p, at, count, history, index), count)
    decreases count - index
  {
    hide WriteS32, ReadS32, Put, Fetch, KernelPredict, Overflows, Shift;
    if index == count {
      RunPutAll(m, e, at.history, history, 0, count, n);
    } else if !Overflows(p, history) {
      LoopStep(m, e, p, at, count, history, index, n);
      var read := ReadS32(m, Cell(at.input, index), e);
      AccessFaults(m, Cell(at.input, index), e);
      if read.Ok? {
        var value := KernelPredict(p, history) + read.value;
        StoreFaults(m, Cell(at.output, index), value, e);
        var stored := WriteS32(m, Cell(at.output, index), value, e);
        if InS32(value) && stored.Ok? {
          RunPredictLoop(stored.value, e, p, at, count, Shift(history, value), index + 1, n - 2);
        }
      }
    }
  }

  /** One sample. */
  lemma LoopStep(
    m: Memory, e: Entry, p: Predictor, at: Layout, count: nat, history: seq<int>, index: nat, n: nat)
    requires p.Valid() && |history| == p.Order() && index < count && n >= 2 && !Overflows(p, history)
    ensures Run(PredictLoop(p, at, count, history, index), m, e, n) ==
      match ReadS32(m, Cell(at.input, index), e)
      case Err(_) => (m, OUT_OF_RANGE)
      case Ok(residual) =>
        var value := KernelPredict(p, history) + residual;
        if !InS32(value) then (m, Finish(Err(SAMPLE_FAULT)))
        else
          match WriteS32(m, Cell(at.output, index), value, e)
          case Err(_) => (m, OUT_OF_RANGE)
          case Ok(m') => Run(PredictLoop(p, at, count, Shift(history, value), index + 1), m', e, n - 2)
  {
    hide WriteS32, Put, Fetch, KernelPredict, Overflows, Shift, FromLittleEndian;
    var read := Read(m, Cell(at.input, index), 4, e, false);
    RunFetch(m, e, Cell(at.input, index), false, (w: word) =>
      var value := KernelPredict(p, history) + Signed32(w);
      if !InS32(value) then Finish(Err(SAMPLE_FAULT))
      else Put(Cell(at.output, index), value, PredictLoop(p, at, count, Shift(history, value), index + 1)), n);
    if read.Ok? {
      var value := KernelPredict(p, history) + Signed32(FromLittleEndian(read.value));
      if InS32(value) {
        RunPut(m, e, Cell(at.output, index), value, PredictLoop(p, at, count, Shift(history, value), index + 1), n - 1);
      }
    }
  }

  lemma RunCall(m: Memory, e: Entry, p: Predictor, at: Layout, count: nat, n: nat)
    requires p.Valid() && n >= 2 * count + 2 * p.Order()
    ensures Run(CallProgram(p, at, count), m, e, n) == Finished(Call(m, e, p, at, count), count)
  {
    hide Run, FetchAll, PredictLoop, PredictFrom;
    var read := WordsFrom(m, at.history, [], p.Order(), e, false);
    RunFetchAll(m, e, at.history, [], p.Order(), false, (history: seq<int>) =>
      if |history| == p.Order() then PredictLoop(p, at, count, history, 0) else OUT_OF_RANGE, n);
    if read.Ok? {
      RunPredictLoop(m, e, p, at, count, read.value, 0, n - p.Order());
    } else {
    }
  }

  lemma RunReferred(m: Memory, e: Entry, reference: word, size: int, state: bool, rest: Program, n: nat)
    requires n > 0
    ensures Run(Referred(reference, e, size, state, rest), m, e, n) ==
      match Resolve(m, reference, e, size, state)
      case Err(_) => (m, OUT_OF_RANGE)
      case Ok(_) => Run(rest, m, e, n - 1)
  {
    hide Run, Checked;
    RunChecked(m, e, Referent(reference, e).0, size, Referent(reference, e).1, rest, n);
    RunFinished(m, e, Err(RANGE_FAULT), n);
  }

  lemma RunFinished(m: Memory, e: Entry, outcome: Result<nat, Fault>, n: nat)
    ensures Run(Finish(outcome), m, e, n) == (m, Finish(outcome))
  {
  }

  /** The outcome of an instruction as a finished program. */
  function Ended(result: (Memory, Result<nat, Fault>)): (Memory, Program) { (result.0, Finish(result.1)) }

  /** The task behind good parameters, carried out. */
  function Carried(m: Memory, e: Entry, task: Result<Task, Fault>): (Memory, Program)
    requires task.Ok? ==> task.value.p.Valid()
  {
    match task
    case Err(fault) => (m, Finish(Err(fault)))
    case Ok(t) => Finished(Call(m, e, t.p, t.at, t.count), t.count)
  }

  lemma RunFixed(m: Memory, i: Instruction, r: T.Registers, e: Entry, n: nat)
    requires i.opcode == FIXED && ValidKernel(i) && n >= StepsFor(i) && ArraysOf(m, i, r, e).Ok?
    ensures Run(FixedProgram(i, ArraysAt(i, r, e), e), m, e, n - 1) == Carried(m, e, FixedTask(m, i, r, e))
  {
    hide Run, Fetch, Checked, Referred, CallProgram, Call, Resolve, FromLittleEndian;
    var order, a := i.aux % 8, ArraysAt(i, r, e);
    RunFetch(m, e, a.parameter, false, (reference: word) =>
      Referred(reference, e, 4 * Max(order, 1), true,
        Checked(a.input, 4 * a.count, false,
          if order > 4 then OUT_OF_RANGE
          else CallProgram(Fixed(order), Layout(Referent(reference, e).0, a.input, a.output), a.count))), n - 1);
    var read := Parameter(m, a.parameter, e);
    if read.Ok? {
      var reference := read.value;
      var at := Layout(Referent(reference, e).0, a.input, a.output);
      var call := CallProgram(Fixed(order), at, a.count);
      ResolveReferent(m, reference, e, 4 * Max(order, 1), true);
      RunReferred(m, e, reference, 4 * Max(order, 1), true, Checked(a.input, 4 * a.count, false, call), n - 2);
      RunChecked(m, e, a.input, 4 * a.count, false, call, n - 3);
      RunCall(m, e, Fixed(order), at, a.count, n - 4);
    }
  }

  lemma ResolveReferent(m: Memory, reference: word, e: Entry, size: int, state: bool)
    ensures Resolve(m, reference, e, size, state).Ok? ==>
      Resolve(m, reference, e, size, state).value == Referent(reference, e)
  {
  }

  /** The call behind the references. */
  function LpcCarried(m: Memory, order: nat, a: Arrays, e: Entry, block: LpcBlock): (Memory, Program) {
    var (address, table) := Referent(block.coefficients, e);
    match WordsFrom(m, address, [], order, e, table)
    case Err(_) => (m, OUT_OF_RANGE)
    case Ok(values) =>
      Finished(Call(m, e, Lpc(values, block.shift), Layout(Referent(block.history, e).0, a.input, a.output), a.count),
               a.count)
  }

  lemma RunLpcCall(m: Memory, order: nat, a: Arrays, e: Entry, block: LpcBlock, n: nat)
    requires n >= 3 * order + 2 * a.count
    ensures Run(LpcCall(order, a, e, block), m, e, n) == LpcCarried(m, order, a, e, block)
  {
    hide Run, FetchAll, CallProgram, Call;
    var (address, table) := Referent(block.coefficients, e);
    var at := Layout(Referent(block.history, e).0, a.input, a.output);
    RunFetchAll(m, e, address, [], order, table, (values: seq<int>) =>
      CallProgram(Lpc(values, block.shift), Layout(Referent(block.history, e).0, a.input, a.output), a.count), n);
    var read := WordsFrom(m, address, [], order, e, table);
    if read.Ok? {
      RunCall(m, e, Lpc(read.value, block.shift), at, a.count, n - order);
    }
  }

  lemma RunLpcBody(m: Memory, order: nat, a: Arrays, e: Entry, block: LpcBlock, n: nat)
    requires n >= 2 + 3 * order + 2 * a.count
    ensures Run(LpcBody(order, a, e, block), m, e, n) ==
      if -31 <= block.shift <= 31 && Resolve(m, block.coefficients, e, 4 * order, false).Ok?
        && Resolve(m, block.history, e, 4 * order, true).Ok?
      then LpcCarried(m, order, a, e, block) else (m, OUT_OF_RANGE)
  {
    hide Run, Referred, LpcCall, Call, Resolve, LpcCarried;
    RunFinished(m, e, Err(RANGE_FAULT), n);
    RunReferred(m, e, block.coefficients, 4 * order, false,
      Referred(block.history, e, 4 * order, true, LpcCall(order, a, e, block)), n);
    RunReferred(m, e, block.history, 4 * order, true, LpcCall(order, a, e, block), n - 1);
    RunLpcCall(m, order, a, e, block, n - 2);
  }

  /** The three words of the parameter block. */
  lemma RunBlock(m: Memory, i: Instruction, a: Arrays, e: Entry, n: nat)
    requires n >= 3
    ensures Run(LpcProgram(i, a, e), m, e, n) ==
      var first, second := Parameter(m, a.parameter, e), Parameter(m, a.parameter + 4, e);
      var third := Parameter(m, a.parameter + 8, e);
      if first.Ok? && second.Ok? && third.Ok? then
        Run(LpcBody(i.aux % 64, a, e, LpcBlock(first.value, second.value, Signed32(third.value))), m, e, n - 3)
      else (m, OUT_OF_RANGE)
  {
    hide Run, Fetch, LpcBody, FromLittleEndian;
    var first, second := Parameter(m, a.parameter, e), Parameter(m, a.parameter + 4, e);
    var third := Parameter(m, a.parameter + 8, e);
    RunFetch(m, e, a.parameter, false, (coefficients: word) =>
      Fetch(a.parameter + 4, false, (history: word) =>
        Fetch(a.parameter + 8, false, (shift: word) =>
          LpcBody(i.aux % 64, a, e, LpcBlock(coefficients, history, Signed32(shift))))), n);
    if first.Ok? {
      var coefficients := first.value;
      RunFetch(m, e, a.parameter + 4, false, (history: word) =>
        Fetch(a.parameter + 8, false, (shift: word) =>
          LpcBody(i.aux % 64, a, e, LpcBlock(coefficients, history, Signed32(shift)))), n - 1);
      if second.Ok? {
        var history := second.value;
        RunFetch(m, e, a.parameter + 8, false, (shift: word) =>
          LpcBody(i.aux % 64, a, e, LpcBlock(coefficients, history, Signed32(shift))), n - 2);
      }
    }
  }

  lemma RunLpc(m: Memory, i: Instruction, r: T.Registers, e: Entry, n: nat)
    requires i.opcode == LPC && ValidKernel(i) && n >= StepsFor(i) && ArraysOf(m, i, r, e).Ok?
    ensures Run(LpcProgram(i, ArraysAt(i, r, e), e), m, e, n - 1) == Carried(m, e, LpcTask(m, i, r, e))
  {
    hide Run, LpcBody, Call, Resolve, Parameter, LpcProgram, WordsFrom;
    var order, a := i.aux % 64, ArraysAt(i, r, e);
    RunBlock(m, i, a, e, n - 1);
    var first, second := Parameter(m, a.parameter, e), Parameter(m, a.parameter + 4, e);
    var third := Parameter(m, a.parameter + 8, e);
    if first.Ok? && second.Ok? && third.Ok? {
      RunLpcBody(m, order, a, e, LpcBlock(first.value, second.value, Signed32(third.value)), n - 4);
      ResolveReferent(m, first.value, e, 4 * order, false);
      ResolveReferent(m, second.value, e, 4 * order, true);
    }
  }

  /** The program of an instruction leaves the memory and the outcome of the instruction. */
  lemma ProgramPredicts(m: Memory, i: Instruction, r: T.Registers, e: Entry)
    requires (i.opcode == FIXED || i.opcode == LPC) && ValidKernel(i)
    ensures Run(PredictProgram(i, r, e), m, e, StepsFor(i)) == Ended(Predicted(m, i, r, e))
  {
    hide Run, FixedProgram, LpcProgram, FixedTask, LpcTask, Call, Misaligned, Checked;
    var a, n := ArraysAt(i, r, e), StepsFor(i);
    RunFinished(m, e, Err(RANGE_FAULT), n);
    BadArrays(m, i, r, e);
    RunChecked(m, e, a.parameter, 4, false,
      if i.opcode == FIXED then FixedProgram(i, a, e) else LpcProgram(i, a, e), n);
    if ArraysOf(m, i, r, e).Ok? {
      if i.opcode == FIXED {
        RunFixed(m, i, r, e, n);
      } else {
        RunLpc(m, i, r, e, n);
      }
    }
  }

  lemma BadArrays(m: Memory, i: Instruction, r: T.Registers, e: Entry)
    requires (i.opcode == FIXED || i.opcode == LPC) && ValidKernel(i)
    ensures ArraysOf(m, i, r, e).Err? ==> TaskOf(m, i, r, e) == Err(RANGE_FAULT)
  {
  }

  // ---------------------------------------------------------------- Discipline

  lemma {:induction false} DisciplinedFewer(p: Program, n: nat, k: nat)
    requires Disciplined(p, n) && k <= n
    ensures Disciplined(p, k)
    decreases k
  {
    if k == 0 || p.Finish? {
    } else {
      forall response
        ensures Disciplined(p.next(response), k - 1)
      {
        DisciplinedFewer(p.next(response), n - 1, k - 1);
      }
    }
  }

  lemma FetchDisciplined(address: int, table: bool, rest: word -> Program, n: nat)
    requires forall w: word :: Disciplined(rest(w), n)
    ensures Disciplined(Fetch(address, table, rest), n)
  {
    hide FromLittleEndian;
    var p := Fetch(address, table, rest);
    if n > 0 {
      forall response
        ensures Disciplined(p.next(response), n - 1)
      {
        DisciplinedFewer(p.next(response), n, n - 1) by {
          assert p.next(response) == OUT_OF_RANGE || p.next(response) == rest(FromLittleEndian(response.bytes));
        }
      }
    }
  }

  lemma CheckedDisciplined(address: int, size: int, table: bool, rest: Program, n: nat)
    requires Disciplined(rest, n)
    ensures Disciplined(Checked(address, size, table, rest), n)
  {
    DisciplinedFewer(rest, n, if n == 0 then 0 else n - 1);
  }

  lemma PutDisciplined(address: int, value: int, rest: Program, n: nat)
    requires address % 4 == 0 && Disciplined(rest, n)
    ensures Disciplined(Put(address, value, rest), n)
  {
    hide WordBytesLE;
    DisciplinedFewer(rest, n, if n == 0 then 0 else n - 1);
  }

  lemma {:induction false} FetchAllDisciplined(
    address: int, got: seq<int>, count: nat, table: bool, rest: seq<int> -> Program, n: nat)
    requires |got| <= count && forall values :: Disciplined(rest(values), n)
    ensures Disciplined(FetchAll(address, got, count, table, rest), n)
    decreases count - |got|
  {
    hide Fetch, Disciplined;
    if |got| == count {
    } else {
      forall w: word
        ensures Disciplined(FetchAll(address, got + [Signed32(w)], count, table, rest), n)
      {
        FetchAllDisciplined(address, got + [Signed32(w)], count, table, rest, n);
      }
      FetchDisciplined(Cell(address, |got|), table,
        (w: word) => FetchAll(address, got + [Signed32(w)], count, table, rest), n);
    }
  }

  lemma {:induction false} PutAllDisciplined(address: int, values: seq<int>, k: nat, count: nat, n: nat)
    requires k <= |values| && address % 4 == 0
    ensures Disciplined(PutAll(address, values, k, count), n)
    decreases |values| - k
  {
    hide Put;
    if k == |values| {
    } else {
      PutAllDisciplined(address, values, k + 1, count, n);
      PutDisciplined(Cell(address, k), values[k], PutAll(address, values, k + 1, count), n);
    }
  }

  lemma {:induction false} LoopDisciplined(p: Predictor, at: Layout, count: nat, history: seq<int>, index: nat, n: nat)
    requires p.Valid() && |history| == p.Order() && index <= count && at.history % 4 == 0 && at.output % 4 == 0
    ensures Disciplined(PredictLoop(p, at, count, history, index), n)
    decreases count - index
  {
    hide Put, Fetch, KernelPredict, Overflows, Shift, FromLittleEndian;
    if index == count {
      PutAllDisciplined(at.history, history, 0, count, n);
    } else if !Overflows(p, history) {
      var rest := (w: word) =>
        var value := KernelPredict(p, history) + Signed32(w);
        if !InS32(value) then Finish(Err(SAMPLE_FAULT))
        else Put(Cell(at.output, index), value, PredictLoop(p, at, count, Shift(history, value), index + 1));
      forall w: word
        ensures Disciplined(rest(w), n)
      {
        var value := KernelPredict(p, history) + Signed32(w);
        if InS32(value) {
          LoopDisciplined(p, at, count, Shift(history, value), index + 1, n);
          PutDisciplined(Cell(at.output, index), value, PredictLoop(p, at, count, Shift(history, value), index + 1), n);
        }
      }
      FetchDisciplined(Cell(at.input, index), false, rest, n);
    }
  }

  lemma CallDisciplined(p: Predictor, at: Layout, count: nat, n: nat)
    requires p.Valid() && at.history % 4 == 0 && at.output % 4 == 0
    ensures Disciplined(CallProgram(p, at, count), n)
  {
    hide PredictLoop, FetchAll;
    var rest := (history: seq<int>) =>
      if |history| == p.Order() then PredictLoop(p, at, count, history, 0) else OUT_OF_RANGE;
    forall history
      ensures Disciplined(rest(history), n)
    {
      if |history| == p.Order() {
        LoopDisciplined(p, at, count, history, 0, n);
      }
    }
    FetchAllDisciplined(at.history, [], p.Order(), false, rest, n);
  }

  lemma ReferredDisciplined(reference: word, e: Entry, size: int, state: bool, rest: Program, n: nat)
    requires !BadReference(reference, state) ==> Disciplined(rest, n)
    ensures Disciplined(Referred(reference, e, size, state, rest), n)
  {
    hide Checked;
    if !BadReference(reference, state) {
      CheckedDisciplined(Referent(reference, e).0, size, Referent(reference, e).1, rest, n);
    }
  }

  /** References to state are aligned where the scratch window is. */
  lemma StateAligned(reference: word, e: Entry)
    requires e.scratchBase % 4 == 0 && !BadReference(reference, true)
    ensures Referent(reference, e).0 % 4 == 0
  {
  }

  lemma FixedDisciplined(i: Instruction, a: Arrays, e: Entry, n: nat)
    requires !Misaligned(a, e)
    ensures Disciplined(FixedProgram(i, a, e), n)
  {
    hide Fetch, Checked, Referred, CallProgram, Disciplined;
    var order := i.aux % 8;
    var rest := (reference: word) =>
      Referred(reference, e, 4 * Max(order, 1), true,
        Checked(a.input, 4 * a.count, false,
          if order > 4 then OUT_OF_RANGE
          else CallProgram(Fixed(order), Layout(Referent(reference, e).0, a.input, a.output), a.count)));
    forall reference: word
      ensures Disciplined(rest(reference), n)
    {
      var at := Layout(Referent(reference, e).0, a.input, a.output);
      var call := if order > 4 then OUT_OF_RANGE else CallProgram(Fixed(order), at, a.count);
      FinishDisciplined(Err(RANGE_FAULT), n);
      if !BadReference(reference, true) {
        StateAligned(reference, e);
        if order <= 4 {
          CallDisciplined(Fixed(order), at, a.count, n);
        }
        CheckedDisciplined(a.input, 4 * a.count, false, call, n);
      }
      ReferredDisciplined(reference, e, 4 * Max(order, 1), true, Checked(a.input, 4 * a.count, false, call), n);
    }
    FetchDisciplined(a.parameter, false, rest, n);
  }

  lemma FinishDisciplined(outcome: Result<nat, Fault>, n: nat)
    requires outcome.Err? ==> Primitives.Known(outcome.error)
    ensures Disciplined(Finish(outcome), n)
  {
  }

  lemma LpcBodyDisciplined(order: nat, a: Arrays, e: Entry, block: LpcBlock, n: nat)
    requires !Misaligned(a, e)
    ensures Disciplined(LpcBody(order, a, e, block), n)
  {
    hide FetchAll, Referred, CallProgram, Disciplined;
    FinishDisciplined(Err(RANGE_FAULT), n);
    if !BadReference(block.history, true) {
      var (address, table) := Referent(block.coefficients, e);
      var at := Layout(Referent(block.history, e).0, a.input, a.output);
      var rest := (values: seq<int>) =>
        CallProgram(Lpc(values, block.shift), Layout(Referent(block.history, e).0, a.input, a.output), a.count);
      StateAligned(block.history, e);
      forall values
        ensures Disciplined(rest(values), n)
      {
        CallDisciplined(Lpc(values, block.shift), at, a.count, n);
      }
      FetchAllDisciplined(address, [], order, table, rest, n);
    }
    ReferredDisciplined(block.history, e, 4 * order, true, LpcCall(order, a, e, block), n);
    ReferredDisciplined(block.coefficients, e, 4 * order, false,
      Referred(block.history, e, 4 * order, true, LpcCall(order, a, e, block)), n);
  }

  lemma LpcDisciplined(i: Instruction, a: Arrays, e: Entry, n: nat)
    requires !Misaligned(a, e)
    ensures Disciplined(LpcProgram(i, a, e), n)
  {
    hide Fetch, LpcBody, Disciplined;
    var order := i.aux % 64;
    var first := (coefficients: word) =>
      Fetch(a.parameter + 4, false, (history: word) =>
        Fetch(a.parameter + 8, false, (shift: word) =>
          LpcBody(i.aux % 64, a, e, LpcBlock(coefficients, history, Signed32(shift)))));
    forall coefficients: word
      ensures Disciplined(first(coefficients), n)
    {
      var second := (history: word) =>
        Fetch(a.parameter + 8, false, (shift: word) =>
          LpcBody(i.aux % 64, a, e, LpcBlock(coefficients, history, Signed32(shift))));
      forall history: word
        ensures Disciplined(second(history), n)
      {
        var third := (shift: word) => LpcBody(i.aux % 64, a, e, LpcBlock(coefficients, history, Signed32(shift)));
        forall shift: word
          ensures Disciplined(third(shift), n)
        {
          LpcBodyDisciplined(order, a, e, LpcBlock(coefficients, history, Signed32(shift)), n);
        }
        FetchDisciplined(a.parameter + 8, false, third, n);
      }
      FetchDisciplined(a.parameter + 4, false, second, n);
    }
    FetchDisciplined(a.parameter, false, first, n);
  }

  lemma PredictDisciplined(i: Instruction, r: T.Registers, e: Entry, n: nat)
    ensures Disciplined(PredictProgram(i, r, e), n)
  {
    hide Checked, FixedProgram, LpcProgram, Disciplined, Misaligned;
    var a := ArraysAt(i, r, e);
    FinishDisciplined(Err(RANGE_FAULT), n);
    if !Misaligned(a, e) {
      FixedDisciplined(i, a, e, n);
      LpcDisciplined(i, a, e, n);
      CheckedDisciplined(a.parameter, 4, false, if i.opcode == FIXED then FixedProgram(i, a, e)
        else LpcProgram(i, a, e), n);
    }
  }

  // ---------------------------------------------------------------- As a script of the engine

  predicate Predicts(i: Instruction) {
    i.cls == KERNEL && (i.opcode == FIXED || i.opcode == LPC) && ValidKernel(i)
  }

  /** The result of the engine call from what is left of the program. */
  function Conclude(left: Program, i: Instruction, p: T.Prims): Machine.EngineResult {
    match left
    case Finish(Ok(count)) => Machine.Executed(p, map[i.dst := count])
    case Finish(Err(fault)) => Machine.Faulted(p, fault)
    case Ask(_, _) => Machine.Faulted(p, RANGE_FAULT)
  }

  function ClientFor(other: Isolation.Script, i: Instruction, r: T.Registers, e: Entry, p: T.Prims): Client {
    if Predicts(i) then ClientOf(PredictProgram(i, r, e)) else other.client(i, r, e, p)
  }

  function StepsOf(other: Isolation.Script, i: Instruction, r: T.Registers, e: Entry, p: T.Prims): nat {
    if Predicts(i) then StepsFor(i) else other.steps(i, r, e, p)
  }

  /** FIXED and LPC as modelled, every other kernel as in `other`. */
  function WithPrediction(other: Isolation.Script): Isolation.Script {
    Isolation.Script(
      (i: Instruction, r: T.Registers, e: Entry, p: T.Prims) => ClientFor(other, i, r, e, p),
      (i: Instruction, r: T.Registers, e: Entry, p: T.Prims) => StepsOf(other, i, r, e, p),
      (i: Instruction, r: T.Registers, e: Entry, p: T.Prims, answers: seq<Response>) =>
        if Predicts(i) then Conclude(Replay(PredictProgram(i, r, e), answers), i, p)
        else other.finish(i, r, e, p, answers))
  }

  lemma {:induction false} ReplayDisciplined(p: Program, answers: seq<Response>)
    requires Disciplined(p, |answers|)
    ensures Disciplined(Replay(p, answers), 0)
    decreases |answers|
  {
    if answers == [] || p.Finish? {
    } else {
      ReplayDisciplined(p.next(answers[0]), answers[1..]);
    }
  }

  /** The prediction kernels obey the rules the machine's theorems ask of kernels. */
  lemma PredictionObeysRules(other: Isolation.Script)
    requires Primitives.KernelRules(other)
    ensures Primitives.KernelRules(WithPrediction(other))
  {
    hide Disciplined, PredictProgram, Replay, ClientOf;
    forall i: Instruction, r, e, p, answers | Predicts(i)
      ensures var result := WithPrediction(other).finish(i, r, e, p, answers);
        && result.prims.input == p.input && (result.Faulted? ==> Primitives.Known(result.fault))
        && (result.Executed? ==> result.writes.Keys <= {i.dst})
    {
      PredictDisciplined(i, r, e, |answers|);
      ReplayDisciplined(PredictProgram(i, r, e), answers);
      ConcludeKnown(Replay(PredictProgram(i, r, e), answers), i, p);
    }
  }

  lemma ConcludeKnown(left: Program, i: Instruction, p: T.Prims)
    requires Disciplined(left, 0)
    ensures var result := Conclude(left, i, p);
      && result.prims == p && (result.Faulted? ==> Primitives.Known(result.fault))
      && (result.Executed? ==> result.writes.Keys <= {i.dst})
  {
  }

  /** Every call of a prediction kernel covers the words it stores to, so nothing it does
      depends on what earlier jobs left behind. */
  lemma PredictionCovers(other: Isolation.Script, i: Instruction, r: T.Registers, e: Entry, p: T.Prims)
    requires Predicts(i)
    ensures Isolation.StoresCover(WithPrediction(other), e, i, r, p)
  {
    hide Disciplined, PredictProgram, WholeWords, ClientOf, Replay;
    PredictDisciplined(i, r, e, StepsFor(i));
    ReplayNothing(PredictProgram(i, r, e));
    StoresAreWhole(PredictProgram(i, r, e), p.memory, e, [], StepsFor(i));
  }

  lemma ReplayNothing(p: Program)
    ensures Replay(p, []) == p
  {
  }

  /** The engine call of FIXED or LPC leaves the memory and the outcome of the instruction. */
  lemma PredictionRuns(other: Isolation.Script, i: Instruction, r: T.Registers, e: Entry, p: T.Prims)
    requires Predicts(i)
    ensures var (memory, outcome) := Predicted(p.memory, i, r, e);
      var after := p.(memory := memory);
      Isolation.RunScript(WithPrediction(other), i, r, e, p) ==
        match outcome
        case Ok(count) => Machine.Executed(after, map[i.dst := count])
        case Err(fault) => Machine.Faulted(after, fault)
  {
    hide PredictProgram, Predicted, Session, ClientOf, Replay, Run;
    var program, view := PredictProgram(i, r, e), Isolation.Masked(p);
    ReplayNothing(program);
    SessionIsRun(program, p.memory, e, [], StepsFor(i));
    ProgramPredicts(p.memory, i, r, e);
    var (memory, answers) := Session(ClientOf(program), p.memory, e, [], StepsFor(i));
    assert Isolation.RunScript(WithPrediction(other), i, r, e, p)
      == var result := Conclude(Replay(program, answers), i, view); result.(prims := result.prims.(memory := memory));
  }

  // ---------------------------------------------------------------- On the machine

  /** A fault of a kernel is latched in the step that finds it, so none is under way between
      two steps. */
  predicate Settled(m: Machine.Machine) { m.kernel.pendingFault.None? }

  /** A kernel needs no bits. */
  lemma KernelNeedsNoBits(i: Instruction, r: T.Registers, p: T.Prims)
    requires i.cls == KERNEL
    ensures !Machine.FifoBlocked(i, p) && !Machine.Starved(i, r, p) && Machine.Buffered(i, r, p) == p
  {
  }

  /** What the machine holds behind a FIXED or LPC instruction: the samples that continue the
      history with the residuals lie in memory, nothing else changed there, and the count is
      on its way to `dst`; or no such samples fit 32 bits and the sample fault is latched. */
  ghost predicate Arrived(
    c: Machine.Config, m: Machine.Machine, i: Instruction, before: T.Prims, task: Task, history: seq<int>,
      residuals: seq<int>, samples: seq<int>)
    requires |history| == task.p.Order()
  {
    && m.prims.Some?
    && var memory := m.prims.value.memory;
      || (&& Restored(memory, c.entry, task.p, task.at, history, residuals, samples)
          && OnlyWrote(before.memory, memory, task.at.output, 4 * |residuals|, task.at.history, 4 * |history|)
          && (m.kernel.result == Some(map[i.dst := |residuals|]) || T.Reg(m.core.registers, i.dst) == |residuals|))
      || (m.kernel.fault == Some(SAMPLE_FAULT) && !exists some :: Continued(task.p, history, some, residuals))
  }

  /** A machine with the prediction kernels executes FIXED or LPC on loaded operands by
      restoring the samples, and goes on to the next instruction. */
  lemma MachinePredicts(
    c: Machine.Config, w: Machine.Timing, m: Machine.Machine, i: Instruction, other: Isolation.Script, task: Task,
      history: seq<int>, residuals: seq<int>)
    returns (samples: seq<int>)
    requires Primitives.Runs(c, WithPrediction(other)) && Predicts(i) && m.prims.Some? && i.dst < 16 && Settled(m)
    requires TaskOf(m.prims.value.memory, i, m.core.registers, c.entry) == Ok(task)
    requires |history| == task.p.Order() && |residuals| == task.count
    requires Loaded(m.prims.value.memory, c.entry, task.at, history, residuals)
    ensures var o := Machine.PrimitiveStep(c, w, m, i);
      && o.m.core.pc == (if c.InRange(m.core.pc + 1) then m.core.pc + 1 else m.core.pc)
      && (c.InRange(m.core.pc + 1) ==> o.Next?)
      && Arrived(c, o.m, i, m.prims.value, task, history, residuals, samples)
  {
    hide TaskOf, Loaded, Predicted, Restored, Continued, OnlyWrote, Isolation.RunScript, WithPrediction,
      Machine.PrimitiveStep;
    var p := m.prims.value;
    var called := p.(kernelDone := false);
    KernelNeedsNoBits(i, m.core.registers, p);
    PredictionRuns(other, i, m.core.registers, c.entry, called);
    samples := InstructionRestores(p.memory, i, m.core.registers, c.entry, task, history, residuals);
    EngineCall(c, m.core.registers, p, i, other);
    Landing(c, w, m, i, Predicted(p.memory, i, m.core.registers, c.entry));
  }

  lemma EngineCall(c: Machine.Config, r: T.Registers, p: T.Prims, i: Instruction, other: Isolation.Script)
    requires Primitives.Runs(c, WithPrediction(other)) && Predicts(i)
    ensures Machine.Invoke(c, r, p, i)
      == Isolation.RunScript(WithPrediction(other), i, r, c.entry, p.(kernelDone := false))
  {
    hide Isolation.RunScript, WithPrediction;
  }

  /** Where the outcome of a kernel call goes. */
  lemma Landing(
    c: Machine.Config, w: Machine.Timing, m: Machine.Machine, i: Instruction, result: (Memory, Result<nat, Fault>))
    requires i.cls == KERNEL && m.prims.Some? && i.dst < 16 && Settled(m)
    requires result.1.Ok? ==> result.1.value < 0x1_0000
    requires result.1.Err? ==> result.1.error.reason != 5
    requires var after := m.prims.value.(kernelDone := false, memory := result.0);
      Machine.Invoke(c, m.core.registers, m.prims.value, i) ==
        match result.1
        case Ok(count) => Machine.Executed(after, map[i.dst := count])
        case Err(fault) => Machine.Faulted(after, fault)
    ensures var o := Machine.PrimitiveStep(c, w, m, i);
      && o.m.core.pc == (if c.InRange(m.core.pc + 1) then m.core.pc + 1 else m.core.pc)
      && (c.InRange(m.core.pc + 1) ==> o.Next?)
      && o.m.prims.Some? && o.m.prims.value.memory == result.0
      && (result.1.Err? ==> o.m.kernel.fault == Some(result.1.error))
      && (result.1.Ok? ==>
            || o.m.kernel.result == Some(map[i.dst := result.1.value])
            || T.Reg(o.m.core.registers, i.dst) == result.1.value)
  {
    hide Machine.Invoke, Machine.Buffered, Machine.Starved, Machine.FifoBlocked, Machine.PrimitiveStep,
      Machine.CompleteKernel, Machine.ApplyWrites, Sequencer.Issued;
    KernelNeedsNoBits(i, m.core.registers, m.prims.value);
    Sequencer.KernelOutcome(c, w, m, i);
    var called := m.(prims := Some(m.prims.value.(kernelDone := false, memory := result.0)));
    match result.1
    case Ok(count) => CountLands(called, i, count, w.cycles(i, m.core.registers, m.prims.value));
    case Err(fault) =>
      FaultLands(called.(kernel := m.kernel.(pendingFault := Some(fault))), i, fault);
  }

  lemma CountLands(m: Machine.Machine, i: Instruction, count: nat, cycles: int)
    requires m.prims.Some? && i.dst < 16 && Settled(m) && count < 0x1_0000_0000
    ensures var after := Sequencer.Issued(m, i, map[i.dst := count], cycles);
      && after.core.pc == m.core.pc && after.prims.Some? && after.prims.value.memory == m.prims.value.memory
      && (after.kernel.result == Some(map[i.dst := count]) || T.Reg(after.core.registers, i.dst) == count)
  {
  }

  lemma FaultLands(m: Machine.Machine, i: Instruction, fault: Fault)
    requires m.prims.Some? && m.kernel.pendingFault == Some(fault)
    ensures var after := Sequencer.Issued(m, i, map[], 1);
      && after.core.pc == m.core.pc && after.prims.Some? && after.prims.value.memory == m.prims.value.memory
      && after.kernel.fault == Some(fault)
  {
  }

  // ---------------------------------------------------------------- Late faults

  lemma {:induction false} DrainSettled(m: Machine.Machine, t: T.Transport)
    ensures Machine.Drain(m, t).kernel == m.kernel
    decreases |t.completed|
  {
    if t.completed == [] {
    } else {
      var (register, value) := t.completed[0];
      DrainSettled(
        m.(core := m.core.(registers := T.SetReg(m.core.registers, register, value)),
           transportDst := m.transportDst - {register}),
        t.(completed := t.completed[1..]));
    }
  }

  lemma TransportSettled(c: Machine.Config, m: Machine.Machine)
    ensures Machine.TickTransport(c, m).kernel == m.kernel
  {
    hide T.Tick;
    if m.transport.Some? && m.prims.Some? {
      var done := T.Tick(c.settings, m.transport.value, m.prims.value, c.entry);
      DrainSettled(m.(prims := Some(done.prims)), done.transport);
    }
  }

  lemma TicksSettled(c: Machine.Config, m: Machine.Machine)
    requires Settled(m)
    ensures Settled(Machine.Ticks(c, m))
  {
    hide Machine.TickTransport, Machine.ApplyWrites;
    TransportSettled(c, Machine.TickKernel(m));
  }

  lemma {:induction false} CyclesSettled(c: Machine.Config, w: Machine.Timing, m: Machine.Machine, n: nat)
    requires Settled(m)
    ensures Settled(Machine.Cycles(c, w, m, n).m)
    decreases n
  {
    hide Machine.Ticks;
    if n == 0 {
    } else {
      TicksSettled(c, m);
      if Machine.Cycle(c, w, m).Next? {
        CyclesSettled(c, w, Machine.Cycle(c, w, m).m, n - 1);
      }
    }
  }

  lemma PrimitiveSettled(c: Machine.Config, w: Machine.Timing, m: Machine.Machine, i: Instruction)
    requires Settled(m)
    ensures Settled(Machine.PrimitiveStep(c, w, m, i).m)
  {
    hide Machine.Cycles, Machine.Buffered, Machine.Starved, Machine.FifoBlocked, Machine.ApplyWrites;
    if m.prims.Some? {
      var p := Machine.Buffered(i, m.core.registers, m.prims.value);
      var result := Machine.Invoke(c, m.core.registers, p, i);
      if result.Executed? {
        CyclesSettled(c, w,
          m.(prims := Some(result.prims),
             core := m.core.(registers := Machine.ApplyWrites(m.core.registers, result.writes))),
          Max(w.cycles(i, m.core.registers, p) - 1, 0));
      }
    }
  }

  lemma ExecuteSettled(c: Machine.Config, w: Machine.Timing, m: Machine.Machine, i: Instruction)
    requires Settled(m)
    ensures Settled(Machine.Execute(c, w, m, i).m)
  {
    hide Machine.PrimitiveStep, Machine.TickTransport, T.IssueCommand, Machine.ControlStep, Machine.ScalarStep,
      Machine.WaitReady;
    PrimitiveSettled(c, w, m, i);
    if m.transport.Some? && m.prims.Some? {
      var issue := T.IssueCommand(
        c.settings, m.transport.value, w.latency, i, m.core.registers, c.entry, m.prims.value);
      if issue.Accepted? {
        TransportSettled(c, m.(transport := Some(issue.transport)));
      }
    }
  }

  lemma HappenSettled(c: Machine.Config, w: Machine.Timing, m: Machine.Machine, event: Machine.Event)
    requires c.Valid() && Settled(m)
    ensures Settled(Machine.Happen(c, w, m, event).m)
  {
    hide Machine.Ticks, Machine.Execute, ValidInstruction;
    TicksSettled(c, m);
    if event.StepEvent? && c.InRange(m.core.pc) {
      ExecuteSettled(c, w, Machine.Ticks(c, m), c.program[m.core.pc]);
    }
  }

  lemma {:induction false} RunSettled(
    c: Machine.Config, w: Machine.Timing, m: Machine.Machine, events: seq<Machine.Event>)
    requires c.Valid() && Settled(m)
    ensures Settled(Machine.Exec(c, w, m, events).m)
    decreases |events|
  {
    hide Machine.Happen;
    if events == [] {
    } else {
      HappenSettled(c, w, m, events[0]);
      var o := Machine.Happen(c, w, m, events[0]);
      if o.Next? {
        RunSettled(c, w, o.m, events[1..]);
      }
    }
  }

  /** The step behind the ticks executes the instruction. */
  predicate Executes(c: Machine.Config, w: Machine.Timing, m: Machine.Machine)
    requires c.Valid()
  {
    && c.InRange(m.core.pc) && m.kernel.fault.None? && m.transportFault.None?
    && ValidInstruction(c.program[m.core.pc], c.target, c.abi) && m.core.retired < c.entry.maxRetired
    && Machine.PredicateHolds(c, w, m, c.program[m.core.pc].predicate_)
    && !Machine.PendingDependency(m, c.program[m.core.pc])
  }

  /** In every run: where the next step executes FIXED or LPC on loaded operands, it restores
      the samples or raises the sample fault as the prediction kernel does. */
  lemma RunPredicts(
    c: Machine.Config, w: Machine.Timing, memory: Memory, transport: bool, events: seq<Machine.Event>,
      other: Isolation.Script, task: Task, history: seq<int>, residuals: seq<int>)
    returns (samples: seq<int>)
    requires c.Valid() && Primitives.Runs(c, WithPrediction(other))
    requires Machine.Exec(c, w, Machine.Boot(c, Some(memory), transport), events).Next?
    requires var m := Machine.Ticks(c, Machine.Exec(c, w, Machine.Boot(c, Some(memory), transport), events).m);
      && Executes(c, w, m) && Predicts(c.program[m.core.pc]) && c.program[m.core.pc].dst < 16 && m.prims.Some?
      && TaskOf(m.prims.value.memory, c.program[m.core.pc], m.core.registers, c.entry) == Ok(task)
      && |history| == task.p.Order() && |residuals| == task.count
      && Loaded(m.prims.value.memory, c.entry, task.at, history, residuals)
    ensures var before := Machine.Exec(c, w, Machine.Boot(c, Some(memory), transport), events).m;
      var m, o := Machine.Ticks(c, before), Machine.Step(c, w, before);
      && (c.InRange(m.core.pc + 1) ==> o.Next? && o.m.core.pc == m.core.pc + 1)
      && Arrived(c, o.m, c.program[m.core.pc], m.prims.value, task, history, residuals, samples)
  {
    hide Machine.Exec, Machine.Ticks, Machine.PrimitiveStep, ValidInstruction, Machine.PredicateHolds,
      Machine.PendingDependency, TaskOf, Loaded, Arrived, Primitives.Runs, WithPrediction;
    var boot := Machine.Boot(c, Some(memory), transport);
    var before := Machine.Exec(c, w, boot, events).m;
    RunSettled(c, w, boot, events);
    TicksSettled(c, before);
    Sequencer.TicksKeepCounters(c, before);
    var m := Machine.Ticks(c, before);
    samples := MachinePredicts(c, w, m, c.program[m.core.pc], other, task, history, residuals);
  }
}

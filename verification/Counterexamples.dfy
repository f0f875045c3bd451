/** Two runs of one short program that show where the machine falls short of what a
    reader would expect: a short last refill publishes leftover bytes, and a committed
    frame does not renew the retirement budget. */
module Counterexamples {
  import opened Common
  import opened Arithmetic
  import opened Isa
  import opened Memory
  import opened Reservoir
  import opened Transport
  import opened Machine
  import Apumc
  import Budget
  import Conservation
  import ControlFlow
  import Isolation
  import Soundness
  import StraightLine

  function Plain(cls: nat, opcode: nat, dst: nat, src0: nat, src1: nat, immediate: nat): Instruction {
    Instruction(cls, opcode, 0, dst, src0, src1, 0, immediate)
  }

  /** Loads four bytes of input to the start of the scratch window, sends them out,
      commits the frame and ends. */
  const PROGRAM: seq<Instruction> := [
    Plain(SCALAR, MOVI, 2, 0, 0, 4),
    Plain(TRANSPORT, INPUT_REFILL, 3, 0, 2, 0),
    Plain(TRANSPORT, OUTPUT_COMMIT, 4, 0, 2, 0),
    Plain(TRANSPORT, FRAME_COMMIT, 0, 0, 2, 0),
    Plain(CONTROL, NOP, 0, 0, 0, 0),
    Plain(CONTROL, END, 0, 0, 0, 0)]

  function JobEntry(format: nat, budget: nat): Entry { Entry(format, 0, 0, 5, 1, budget, 0, 128, 0xB_0000, 0, 0) }

  function Job(input: seq<byte>, budget: nat): Config {
    Config(PROGRAM, JobEntry(0, budget), P5, V2,
           (i: Instruction, r: Registers, e: Entry, p: Prims) => Executed(p, map[]),
           Settings(input, 4, false, 4))
  }

  const CLOCK: Timing := Timing(
    PredicateInputs(false, false, false, false, false), 100, 1, (i: Instruction, r: Registers, p: Prims) => 1)

  lemma {:induction false} BitWithinOnes(k: nat, n: nat)
    requires k < n
    ensures BitsWithin(Pow2(k), Pow2(n) - 1)
    decreases k
  {
    if k == 0 {
    } else {
      BitWithinOnes(k - 1, n - 1);
    }
  }

  lemma MaskIsLegal(k: nat)
    requires k < 21
    ensures BitsWithin(Pow2(k), TargetMask(P5))
  {
    Pow2Literals();
    Pow2Add(16, 5);
    BitWithinOnes(k, 21);
  }

  lemma ProgramIsLegal(pc: nat)
    requires pc < 6
    ensures ValidInstruction(PROGRAM[pc], P5, V2)
  {
    hide BitsWithin, TargetMask;
    MaskIsLegal(16);
    MaskIsLegal(17);
    MaskIsLegal(19);
    CommitMask();
  }

  lemma CommitMask()
    ensures Pow2(19) == 0x8_0000
  {
    Pow2Literals();
    Pow2Add(16, 3);
  }

  /** The state between two steps of the program. */
  ghost predicate Reached(m: Machine, pc: nat, memory: Memory, transport: Transport, dst: set<nat>) {
    && m.core.pc == pc == m.core.retired && m.core.registers[0] == 0 && (pc >= 1 ==> m.core.registers[2] == 4)
    && m.kernel == NO_KERNEL && m.transportFault.None? && m.transportDst == dst
    && m.transport == Some(transport)
    && m.prims.Some? && m.prims.value.memory == memory && m.prims.value.outputFifo == []
  }

  lemma FirstStep(input: seq<byte>, budget: nat, memory: Memory)
    requires budget >= 5
    ensures Job(input, budget).Valid()
    ensures var o := Step(Job(input, budget), CLOCK, Boot(Job(input, budget), Some(memory), true));
      o.Next? && Reached(o.m, 1, NewEpoch(memory), IDLE, {}) && o.m.prims.value.input == EMPTY
  {
    hide ValidInstruction;
    ProgramIsLegal(0);
    var c := Job(input, budget);
    var m := Boot(c, Some(memory), true);
    TickOne(c.settings, IDLE, m.prims.value, c.entry);
    assert Ticks(c, m) == m;
  }

  /** The refill in flight after the second step. */
  function Refilling(input: seq<byte>): Transport {
    IDLE.(pending := [Command(INPUT_REFILL, 3, 0, |input|, input, 1)])
  }

  lemma SecondStep(input: seq<byte>, budget: nat, memory: Memory, m: Machine)
    requires budget >= 5 && 1 <= |input| <= 4 && Reached(m, 1, memory, IDLE, {}) && m.prims.value.input == EMPTY
    ensures Job(input, budget).Valid()
    ensures var o := Step(Job(input, budget), CLOCK, m);
      o.Next? && Reached(o.m, 2, memory, Refilling(input), {3}) && o.m.prims.value.input == EMPTY
  {
    hide ValidInstruction, BitOr, BitAnd;
    ProgramIsLegal(1);
    var c := Job(input, budget);
    TickOne(c.settings, IDLE, m.prims.value, c.entry);
    assert Ticks(c, m) == m;
    assert PendingRegisters(m) == {};
    assert input[0..|input|] == input;
    assert IssueCommand(c.settings, IDLE, 1, PROGRAM[1], m.core.registers, c.entry, m.prims.value)
      == Accepted(Refilling(input));
    assert {} + {3} == {3};
  }

  /** What the refill leaves in memory: the input, and behind it in the same word
      whatever was there before. */
  function Refilled(memory: Memory, input: seq<byte>): Memory
    requires 1 <= |input| <= 4
  {
    memory.(data := Splice(memory.data, 0, input), valid := memory.valid + Touched(0, |input|))
  }

  function Published(memory: Memory, input: seq<byte>): seq<byte>
    requires 1 <= |input| <= 4
  {
    input + memory.data[|input|..4]
  }

  function Sending(memory: Memory, input: seq<byte>): Transport
    requires 1 <= |input| <= 4
  {
    IDLE.(inputCursor := |input|, pending := [Command(OUTPUT_COMMIT, 4, 0, 4, Published(memory, input), 1)],
          outputCommands := [(OUTPUT_COMMIT, 4)], issued := Published(memory, input))
  }

  lemma RefillLands(input: seq<byte>, budget: nat, memory: Memory, m: Machine)
    requires 1 <= |input| <= 4 && memory.tableBytes == 0
    requires Reached(m, 2, memory, Refilling(input), {3}) && m.prims.value.input == EMPTY
    ensures var n := Ticks(Job(input, budget), m);
      Reached(n, 2, Refilled(memory, input), IDLE.(inputCursor := |input|), {})
  {
    hide RefillWords, PushAll, PackWords;
    var c := Job(input, budget);
    var p, t := m.prims.value, Refilling(input);
    var landed := t.(pending := CountDown(t.pending));
    var command := landed.pending[0];
    assert landed.pending == [command] && command == Command(INPUT_REFILL, 3, 0, |input|, input, 0);
    TickOne(c.settings, t, p, c.entry);
    assert input == input[0..|input|] && input[..0] == [];
    PushAllReasons(p.input, RefillWords(input, 0, |input|));
    Conservation.RefillConserves(c.settings, landed, p, c.entry, command);
    assert Remove([command], command) == [];
    var done := Complete(c.settings, landed, p, c.entry, command);
    assert done.fault.None? && done.transport == IDLE.(inputCursor := |input|, completed := [(3, |input|)]);
    Conservation.DrainSingle(m.(prims := Some(done.prims)), done.transport);
  }

  lemma ThirdStep(input: seq<byte>, budget: nat, memory: Memory, m: Machine)
    requires budget >= 5 && 1 <= |input| <= 4 && memory.tableBytes == 0
    requires Reached(m, 2, memory, Refilling(input), {3}) && m.prims.value.input == EMPTY
    ensures Job(input, budget).Valid()
    ensures var o := Step(Job(input, budget), CLOCK, m);
      o.Next? && Reached(o.m, 3, Refilled(memory, input), Sending(memory, input), {4})
  {
    hide ValidInstruction, BitOr, BitAnd, Ticks, Splice, Touched;
    ProgramIsLegal(2);
    RefillLands(input, budget, memory, m);
    var c := Job(input, budget);
    var n := Ticks(c, m);
    assert PendingRegisters(n) == {};
    SentBytes(input, memory);
    assert Read(n.prims.value.memory, 0, 4, c.entry, false) == Ok(Published(memory, input));
    assert [] + Published(memory, input) == Published(memory, input);
    assert IssueCommand(c.settings, n.transport.value, 1, PROGRAM[2], n.core.registers, c.entry, n.prims.value)
        == Accepted(Sending(memory, input));
    assert {} + {4} == {4};
  }

  lemma SentBytes(input: seq<byte>, memory: Memory)
    requires 1 <= |input| <= 4
    ensures Refilled(memory, input).data[0..4] == Published(memory, input) && WordsValid(Refilled(memory, input), 0, 4)
  {
    assert Touches(0, |input|, 0);
  }

  function Sent(memory: Memory, input: seq<byte>): Transport
    requires 1 <= |input| <= 4
  {
    Sending(memory, input).(pending := [], output := Published(memory, input))
  }

  function Finished(memory: Memory, input: seq<byte>): Transport
    requires 1 <= |input| <= 4
  {
    Sent(memory, input).(frames := 1, logicalOutput := 4)
  }

  lemma OutputLands(input: seq<byte>, budget: nat, memory: Memory, m: Machine) returns (after: Memory)
    requires 1 <= |input| <= 4 && memory.tableBytes == 0
    requires Reached(m, 3, Refilled(memory, input), Sending(memory, input), {4})
    ensures Reached(Ticks(Job(input, budget), m), 3, after, Sent(memory, input), {})
  {
    hide Splice, Touched, Published;
    var c := Job(input, budget);
    var p, t := m.prims.value, Sending(memory, input);
    var landed := t.(pending := CountDown(t.pending));
    var command := landed.pending[0];
    assert landed.pending == [command] && command == Command(OUTPUT_COMMIT, 4, 0, 4, Published(memory, input), 0);
    TickOne(c.settings, t, p, c.entry);
    assert Remove([command], command) == [];
    assert [] + Published(memory, input) == Published(memory, input);
    var done := Complete(c.settings, landed, p, c.entry, command);
    after := done.prims.memory;
    assert done.fault.None? && done.transport == Sent(memory, input).(completed := [(4, 4)]);
    Conservation.DrainSingle(m.(prims := Some(done.prims)), done.transport);
  }

  lemma FourthStep(input: seq<byte>, budget: nat, memory: Memory, m: Machine) returns (after: Memory)
    requires budget >= 5 && 1 <= |input| <= 4 && memory.tableBytes == 0
    requires Reached(m, 3, Refilled(memory, input), Sending(memory, input), {4})
    ensures Job(input, budget).Valid()
    ensures var o := Step(Job(input, budget), CLOCK, m);
      o.Next? && Reached(o.m, 4, after, Finished(memory, input), {})
    ensures Budget.Commits(Job(input, budget), CLOCK, m, StepEvent)
  {
    hide ValidInstruction, BitOr, BitAnd, Ticks, Published;
    ProgramIsLegal(3);
    after := OutputLands(input, budget, memory, m);
    var c := Job(input, budget);
    var n := Ticks(c, m);
    assert PendingRegisters(n) == {};
    PublishedSize(memory, input);
    var t := Finished(memory, input).(completed := [(0, 0)]);
    assert IssueCommand(c.settings, n.transport.value, 1, PROGRAM[3], n.core.registers, c.entry, n.prims.value)
      == Accepted(t);
    TickOne(c.settings, t, n.prims.value, c.entry);
    Conservation.DrainSingle(n.(transport := Some(t)), t);
    assert {} - {0} == {};
  }

  lemma PublishedSize(memory: Memory, input: seq<byte>)
    requires 1 <= |input| <= 4
    ensures |Published(memory, input)| == 4
  {
  }

  lemma LastSteps(input: seq<byte>, budget: nat, memory: Memory, t: Transport, m: Machine)
    requires budget >= 5 && 1 <= |input| <= 4 && Reached(m, 4, memory, t, {}) && t.pending == [] && t.completed == []
    ensures var c := Job(input, budget);
      && c.Valid()
      && var o := Step(c, CLOCK, m);
      && o.Next? && Reached(o.m, 5, memory, t, {})
      && var a := Step(c, CLOCK, o.m);
      && (budget == 5 ==> a == Trap(8, a.m) && a.m.core.retired == 5)
      && (budget >= 6 ==> a.Done? && a.m.transport == Some(t))
  {
    hide ValidInstruction;
    ProgramIsLegal(4);
    ProgramIsLegal(5);
    var c := Job(input, budget);
    TickOne(c.settings, t, m.prims.value, c.entry);
    assert Ticks(c, m) == m;
    assert PendingRegisters(m) == {};
    var n := Step(c, CLOCK, m).m;
    assert Ticks(c, n) == n;
    assert PendingRegisters(n) == {};
  }

  // ---------------------------------------------------------------- The two runs

  function Steps(n: nat): (events: seq<Event>)
    ensures |events| == n
  {
    if n == 0 then [] else [StepEvent] + Steps(n - 1)
  }

  lemma OneStep(c: Config, m: Machine, n: nat, count: nat)
    requires c.Valid() && Step(c, CLOCK, m).Next?
    ensures var m' := Step(c, CLOCK, m).m;
      && Exec(c, CLOCK, m, Steps(n + 1)) == Exec(c, CLOCK, m', Steps(n))
      && (Budget.Commits(c, CLOCK, m, StepEvent) || Budget.Committed(c, CLOCK, m', Steps(n)) <==>
          Budget.Committed(c, CLOCK, m, Steps(n + 1)))
      && (m'.core.retired == m.core.retired + 1 ==>
            Budget.FrameCounter(c, CLOCK, m, Steps(n + 1), count)
            == Budget.FrameCounter(c, CLOCK, m', Steps(n), if Budget.Commits(c, CLOCK, m, StepEvent) then 0
              else count + 1))
  {
    hide Step, Budget.Commits;
    assert Steps(n + 1)[0] == StepEvent && Steps(n + 1)[1..] == Steps(n);
  }

  lemma LastStep(c: Config, m: Machine, count: nat)
    requires c.Valid() && !Step(c, CLOCK, m).Next?
    ensures Exec(c, CLOCK, m, Steps(1)) == Step(c, CLOCK, m)
    ensures Step(c, CLOCK, m).m.core.retired == m.core.retired ==>
      Budget.FrameCounter(c, CLOCK, m, Steps(1), count) == count
  {
    hide Step, Budget.Commits;
    assert Steps(1)[0] == StepEvent && Steps(1)[1..] == Steps(0);
  }

  /** The last two instructions are no frame commits. */
  lemma PlainSteps(c: Config, m: Machine)
    requires c.Valid() && c.program == PROGRAM && m.core.pc in {0, 1, 2, 4, 5}
    ensures !Budget.Commits(c, CLOCK, m, StepEvent)
  {
    hide Step, Ticks;
  }

  /** The run, up to the commit of the frame. */
  lemma UpToCommit(input: seq<byte>, budget: nat, memory: Memory, n: nat) returns (m: Machine, after: Memory)
    requires budget >= 5 && 1 <= |input| <= 4 && memory.tableBytes == 0
    ensures Job(input, budget).Valid() && Reached(m, 4, after, Finished(memory, input), {})
    ensures var c := Job(input, budget);
      var boot := Boot(c, Some(memory), true);
      && Exec(c, CLOCK, boot, Steps(n + 4)) == Exec(c, CLOCK, m, Steps(n))
      && Budget.Committed(c, CLOCK, boot, Steps(n + 4))
      && Budget.FrameCounter(c, CLOCK, boot, Steps(n + 4), 0) == Budget.FrameCounter(c, CLOCK, m, Steps(n), 0)
  {
    hide Step, Exec, Budget.Commits, Budget.Committed, Budget.FrameCounter, Published, Refilled, Steps;
    var c := Job(input, budget);
    var m0 := Boot(c, Some(memory), true);
    FirstStep(input, budget, memory);
    var m1 := Step(c, CLOCK, m0).m;
    SecondStep(input, budget, NewEpoch(memory), m1);
    var m2 := Step(c, CLOCK, m1).m;
    ThirdStep(input, budget, NewEpoch(memory), m2);
    var m3 := Step(c, CLOCK, m2).m;
    after := FourthStep(input, budget, NewEpoch(memory), m3);
    m := Step(c, CLOCK, m3).m;
    PlainSteps(c, m0);
    PlainSteps(c, m1);
    PlainSteps(c, m2);
    OneStep(c, m0, n + 3, 0);
    OneStep(c, m1, n + 2, 1);
    OneStep(c, m2, n + 1, 2);
    OneStep(c, m3, n, 3);
    EpochKeepsBytes(memory, input);
  }

  lemma EpochKeepsBytes(memory: Memory, input: seq<byte>)
    requires 1 <= |input| <= 4
    ensures Finished(NewEpoch(memory), input) == Finished(memory, input)
  {
  }

  /** The program sends out the input followed by the bytes an earlier job left behind
      it in the same word. */
  lemma JobOutput(input: seq<byte>, memory: Memory)
    requires 1 <= |input| <= 4 && memory.tableBytes == 0
    ensures Job(input, 6).Valid()
    ensures var o := Exec(Job(input, 6), CLOCK, Boot(Job(input, 6), Some(memory), true), Steps(6));
      o.Done? && o.m.transport.Some? && o.m.transport.value.output == input + memory.data[|input|..4]
  {
    hide Step, Exec, Budget.Committed, Budget.FrameCounter, Steps;
    var m, after := UpToCommit(input, 6, memory, 2);
    var c := Job(input, 6);
    LastSteps(input, 6, after, Finished(memory, input), m);
    OneStep(c, m, 1, 0);
    LastStep(c, Step(c, CLOCK, m).m, 1);
  }

  /** Leftover bytes reach the output: for every input of one to three bytes there are two
      memories, both without tables, from which the same job sends out different bytes. */
  lemma LeftoversReachOutput(input: seq<byte>) returns (left: Memory, right: Memory)
    requires 1 <= |input| <= 3
    ensures Job(input, 6).Valid() && Isolation.SameTables(left, right) && EntryFits(left, Job(input, 6).entry)
    ensures var c := Job(input, 6);
      var a := Exec(c, CLOCK, Boot(c, Some(left), true), Steps(6));
      var b := Exec(c, CLOCK, Boot(c, Some(right), true), Steps(6));
      && a.Done? && b.Done? && a.m.transport.Some? && b.m.transport.Some?
      && a.m.transport.value.output != b.m.transport.value.output
      && !Isolation.AlikeOutcomes(c, a, b)
  {
    hide Exec;
    left := Memory(seq(LOCAL_DATA_BYTES, _ => 0), {}, 0, true);
    right := left.(data := left.data[3 := 1]);
    JobOutput(input, left);
    JobOutput(input, right);
    var n := |input|;
    assert (input + left.data[n..4])[3] == left.data[n..4][3 - n] == 0;
    assert (input + right.data[n..4])[3] == right.data[n..4][3 - n] == 1;
  }

  /** A committed frame does not renew the budget: the run commits a frame and then traps
      with reason 8 although only one of five allowed instructions retired since. */
  lemma CommitDoesNotRenewBudget(input: seq<byte>, memory: Memory)
    requires |input| == 4 && memory.tableBytes == 0
    ensures var c := Job(input, 5);
      && c.Valid() && Soundness.EngineReasons(c) && c.entry.maxRetired == 5
      && var boot := Boot(c, Some(memory), true);
      && var o := Exec(c, CLOCK, boot, Steps(6));
      && o.Trap? && o.reason == 8 && Budget.Committed(c, CLOCK, boot, Steps(6))
      && Budget.FrameCounter(c, CLOCK, boot, Steps(6), 0) == 1
  {
    hide Step, Exec, Budget.Committed, Budget.FrameCounter, Steps;
    var m, after := UpToCommit(input, 5, memory, 2);
    var c := Job(input, 5);
    LastSteps(input, 5, after, Finished(memory, input), m);
    PlainSteps(c, m);
    OneStep(c, m, 1, 0);
    LastStep(c, Step(c, CLOCK, m).m, 1);
  }

  // ---------------------------------------------------------------- The program is deployable

  function Contents(budget: nat): Apumc.Contents {
    Apumc.Contents(PROGRAM, seq(3, k requires 0 <= k => JobEntry(k, budget)), 0, [], V2)
  }

  lemma DoubledWithin(a: nat, b: nat, bit: nat)
    requires BitsWithin(a, b) && bit < 2
    ensures BitsWithin(2 * a, 2 * b + bit)
  {
    hide Pow2;
    assert (2 * a) / 2 == a && (2 * b + bit) / 2 == b;
  }

  lemma {:induction false} ShiftedWithin(a: nat, b: nat, low: nat, k: nat)
    requires BitsWithin(a, b) && low < Pow2(k)
    ensures a * Pow2(k) >= 0 && b * Pow2(k) >= 0 && BitsWithin(a * Pow2(k), b * Pow2(k) + low)
    decreases k
  {
    hide BitsWithin;
    if k == 0 {
    } else {
      var p := Pow2(k - 1);
      ShiftedWithin(a, b, low / 2, k - 1);
      DoubledWithin(a * p, b * p + low / 2, low % 2);
      Associate(a, p, 2);
      Associate(b, p, 2);
    }
  }

  lemma SmallMasks()
    ensures BitsWithin(1, 0xB) && BitsWithin(2, 0xB) && BitsWithin(8, 0xB) && BitsWithin(0xB, 0x1F)
  {
  }

  /** The three transport primitives the program uses are the entry's primitives. */
  lemma MasksAreLegal()
    ensures BitsWithin(0x1_0000, 0xB_0000) && BitsWithin(0x2_0000, 0xB_0000) && BitsWithin(0x8_0000, 0xB_0000)
    ensures BitsWithin(0xB_0000, TargetMask(P5))
  {
    hide BitsWithin;
    Pow2Literals();
    SmallMasks();
    ShiftedWithin(1, 0xB, 0, 16);
    ShiftedWithin(2, 0xB, 0, 16);
    ShiftedWithin(8, 0xB, 0, 16);
    ShiftedWithin(0xB, 0x1F, 0xFFFF, 16);
  }

  lemma MasksCoverProgram(format: nat, budget: nat)
    ensures Apumc.MasksCover(PROGRAM, JobEntry(format, budget))
  {
    hide BitsWithin;
    MasksAreLegal();
    CommitMask();
    Pow2Literals();
    assert Pow2(17) == 0x2_0000;
    assert BitsWithin(0, 0xB_0000) by { NothingWithin(0xB_0000); }
  }

  lemma NothingWithin(b: nat)
    ensures BitsWithin(0, b)
  {
  }

  lemma EntryIsLegal(format: nat, budget: nat)
    requires format < ENTRY_COUNT && 1 <= budget <= 0xFF_FFFF
    ensures ValidEntry(JobEntry(format, budget), |PROGRAM|, P5, 0, V2)
      && Apumc.MasksCover(PROGRAM, JobEntry(format, budget))
    ensures ControlFlow.Accepts(ControlFlow.Context(PROGRAM, JobEntry(format, budget), P5, V2))
  {
    hide BitsWithin, Apumc.MasksCover, ControlFlow.Accepts;
    MasksAreLegal();
    MasksCoverProgram(format, budget);
    StraightLine.StraightAccepted(ControlFlow.Context(PROGRAM, JobEntry(format, budget), P5, V2));
  }

  lemma {:induction false} OrSame(a: nat)
    ensures BitOr(a, a) == a
    decreases a
  {
    if a == 0 {
    } else {
      OrSame(a / 2);
    }
  }

  lemma ProgramIsBuildable(budget: nat)
    requires 1 <= budget <= 0xFF_FFFF
    ensures Apumc.Buildable(Contents(budget), P5)
  {
    hide ValidEntry, ValidInstruction, Apumc.MasksCover, ControlFlow.Accepts, BitOr, BitsWithin, Pow2, TargetMask;
    MasksAreLegal();
    OrSame(0xB_0000);
    forall pc: nat | pc < |PROGRAM|
      ensures ValidInstruction(PROGRAM[pc], P5, V2)
    {
      ProgramIsLegal(pc);
    }
    EntryIsLegal(0, budget);
    EntryIsLegal(1, budget);
    EntryIsLegal(2, budget);
  }

  lemma JobIsVerified(input: seq<byte>, budget: nat)
    requires 1 <= budget <= 0xFF_FFFF
    ensures Soundness.Verified(Job(input, budget))
  {
    hide ControlFlow.Accepts;
    EntryIsLegal(0, budget);
  }

  /** The program of both runs is one that can be deployed: the builder makes an image of
      it, the parser accepts the image and reads the program and the job's entry back. */
  lemma ProgramIsDeployable(crc32: seq<byte> -> word, budget: nat, input: seq<byte>)
    requires 1 <= budget <= 0xFF_FFFF
    ensures Apumc.Buildable(Contents(budget), P5)
    ensures var image := Apumc.Image(crc32, Contents(budget));
      && Apumc.Readable(image)
      && Apumc.ProgramOf(image) == Job(input, budget).program
      && Apumc.EntriesOf(image) == Contents(budget).entries
      && Apumc.Parses(crc32, image, P5, None)
    ensures Contents(budget).entries[0] == Job(input, budget).entry
  {
    hide Apumc.Buildable, Apumc.Parses, Apumc.Image, Apumc.ProgramOf, Apumc.EntriesOf, Apumc.Readable, Apumc.HeaderOf,
      Apumc.TableOf, Apumc.HeaderWords, Apumc.Payload, Apumc.DmaCovered;
    ProgramIsBuildable(budget);
    NothingWaits();
    Apumc.BuildThenParse(crc32, Contents(budget), P5, None);
  }

  lemma NothingWaits()
    ensures forall e :: Apumc.DmaCovered(PROGRAM, e)
  {
  }
}

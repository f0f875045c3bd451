/** The transport engine: input refills and output commands that complete after a
    delay, and the job bookkeeping behind them. */
module Transport {
  import opened Common
  import opened Isa
  import opened Memory
  import opened Reservoir

  const WORD_MAX: nat := 0xFFFF_FFFF

  type Registers = s: seq<word> | |s| == 16 witness seq(16, _ => 0)

  /** Register fields of a decoded instruction are four bits wide. */
  function Reg(registers: Registers, index: nat): word { if index < 16 then registers[index] else 0 }

  function SetReg(registers: Registers, index: nat, value: int): Registers {
    if index < 16 then registers[index := ToWord(value)] else registers
  }

  /** The state of the primitive engine. */
  datatype Prims = Prims(
    memory: Memory, input: Reservoir, outputFifo: seq<nat>, kernelDone: bool, resampleProfile: Option<nat>)

  datatype Command = Command(
    opcode: nat, destination: nat, offset: nat, count: int, payload: seq<byte>, cycles: int)
  {
    predicate IsRefill() { opcode == INPUT_REFILL }
  }

  type pos = n: nat | n > 0 witness 1

  /** What the job descriptor fixes for a run. */
  datatype Settings = Settings(inputData: seq<byte>, outputCapacity: nat, streamOutput: bool, outputFrameBytes: pos)

  /** `issued` is a history variable: the payloads of all output commands accepted so
      far, in order. */
  datatype Transport = Transport(
    inputCursor: nat, output: seq<byte>,
    frames: nat, logicalInput: nat, logicalOutput: nat,
    resultCode: nat, resultStage: nat, resultDetail: nat, events: nat,
    pending: seq<Command>, completed: seq<(nat, int)>, outputCommands: seq<(nat, nat)>, issued: seq<byte>)

  const IDLE: Transport := Transport(0, [], 0, 0, 0, 0, 0, 0, 0, [], [], [], [])

  // ---------------------------------------------------------------- Issue

  datatype Issue = Accepted(transport: Transport) | Busy | Refused(fault: Fault)

  const COMMIT_FAULT: Fault := Fault(11, 11, 9)
  const CAPACITY_FAULT: Fault := Fault(8, 8, 9)
  const OPERAND_FAULT: Fault := Fault(11, 11, 1)

  function IssueRefill(s: Settings, t: Transport, latency: int, i: Instruction, offset: nat, count: nat, e: Entry,
    p: Prims): Issue {
    if count < 4 || count > 256 || count % 4 != 0 || offset % 4 != 0 || offset + count > e.scratchBytes then
      Refused(RANGE_FAULT)
    else
      var actual := Min(count, |s.inputData| - t.inputCursor);
      var needed := (actual + 3) / 4;
      if exists c :: c in t.pending && c.IsRefill() then Busy
      else if |p.input.words| + needed > FIFO_DEPTH then Busy
      else
        var payload := Slice(s.inputData, t.inputCursor, t.inputCursor + actual);
        Accepted(t.(pending := t.pending + [Command(i.opcode, i.dst, offset, actual, payload, Max(1, latency))]))
  }

  function IssueOutput(s: Settings, t: Transport, latency: int, i: Instruction, offset: nat, count: nat, e: Entry,
    p: Prims): Issue {
    if count < 1 || count > 256 || offset % 4 != 0 || offset + count > e.scratchBytes then Refused(RANGE_FAULT)
    else if count % s.outputFrameBytes != 0 || (i.opcode == OUTPUT_STREAM) != s.streamOutput then Refused(RANGE_FAULT)
    else if p.outputFifo != [] then Refused(RANGE_FAULT)
    else if exists c :: c in t.pending && !c.IsRefill() then Busy
    else if i.opcode == OUTPUT_COMMIT && |t.output| + count > s.outputCapacity then Refused(CAPACITY_FAULT)
    else
      match Read(p.memory, e.scratchBase + offset, count, e, false)
      case Err(fault) => Refused(fault)
      case Ok(payload) =>
        Accepted(t.(pending := t.pending + [Command(i.opcode, i.dst, offset, count, payload, Max(1, latency))],
                    outputCommands := t.outputCommands + [(i.opcode, count)], issued := t.issued + payload))
  }

  function IssueJob(s: Settings, t: Transport, i: Instruction, offset: nat, count: nat): Issue {
    var done := t.completed + [(i.dst, 0)];
    if i.opcode == DMA_WAIT then
      if t.pending != [] then Busy else Accepted(t.(completed := done))
    else if i.opcode == FRAME_COMMIT then
      if || count != s.outputFrameBytes
         || t.logicalInput + offset > t.inputCursor
         || t.logicalOutput + count > |t.output| then Refused(COMMIT_FAULT)
      else
        Accepted(t.(logicalInput := Min(WORD_MAX, t.logicalInput + offset),
                    logicalOutput := Min(WORD_MAX, t.logicalOutput + count),
                    frames := Min(WORD_MAX, t.frames + 1), completed := done))
    else if i.opcode == JOB_RESULT then
      if offset >= 64 || offset > 22 then Refused(OPERAND_FAULT)
      else Accepted(t.(resultCode := offset, resultStage := i.aux % 16, resultDetail := count, completed := done))
    else
      Accepted(t.(events := BitOr(t.events, BitAnd(i.immediate, 0x0C0)), completed := done))
  }

  function IssueCommand(s: Settings, t: Transport, latency: int, i: Instruction, r: Registers, e: Entry,
    p: Prims): Issue {
    var offset, count := Reg(r, i.src0), Reg(r, i.src1);
    if i.opcode == INPUT_REFILL then IssueRefill(s, t, latency, i, offset, count, e, p)
    else if i.opcode == OUTPUT_COMMIT || i.opcode == OUTPUT_STREAM then
      IssueOutput(s, t, latency, i, offset, count, e, p)
    else IssueJob(s, t, i, offset, count)
  }

  // ---------------------------------------------------------------- Completion

  datatype Completion = Completion(transport: Transport, prims: Prims, fault: Option<Fault>)

  const PUSH_FAULT: Fault := Fault(22, 7, 9)

  /** The FIFO words of a refill whose first byte is at `position` of the input. */
  function RefillWords(payload: seq<byte>, position: nat, total: nat): seq<nat>
    decreases |payload|
  {
    if payload == [] then []
    else
      var data := Slice(payload, 0, 4);
      [PackWord(data, position + |data| == total)] + RefillWords(payload[|data|..], position + |data|, total)
  }

  function PushAll(input: Reservoir, words: seq<nat>): (Reservoir, Option<Fault>)
    decreases |words|
  {
    if words == [] then (input, None)
    else if !CanPush(input.words, words[0]) then (input, Some(PUSH_FAULT))
    else PushAll(Push(input, words[0]), words[1..])
  }

  /** The context word that publishes the output length. */
  function ContextAddress(e: Entry): int { e.scratchBase + e.scratchBytes - 64 + 44 }

  function CompleteRefill(s: Settings, t: Transport, p: Prims, e: Entry, c: Command): Completion {
    match Write(p.memory, e.scratchBase + c.offset, c.payload, e)
    case Err(fault) => Completion(t, p, Some(fault))
    case Ok(memory) =>
      var (input, fault) := PushAll(p.input, RefillWords(c.payload, t.inputCursor, |s.inputData|));
      var p' := p.(memory := memory, input := input);
      if fault.Some? then Completion(t, p', fault)
      else Completion(t.(inputCursor := t.inputCursor + |c.payload|), p', None)
  }

  function CompleteOutput(t: Transport, p: Prims, e: Entry, c: Command): Completion {
    var t' := t.(output := t.output + c.payload);
    match Write(p.memory, ContextAddress(e), WordBytesLE(|t'.output|), e)
    case Err(fault) => Completion(t', p, Some(fault))
    case Ok(memory) => Completion(t', p.(memory := memory), None)
  }

  function Remove(commands: seq<Command>, c: Command): seq<Command> {
    if commands == [] then [] else if commands[0] == c then commands[1..] else [commands[0]] + Remove(commands[1..], c)
  }

  /** Completes one command and takes it off the pending list. */
  function Complete(s: Settings, t: Transport, p: Prims, e: Entry, c: Command): Completion {
    var done := if c.IsRefill() then CompleteRefill(s, t, p, e, c) else CompleteOutput(t, p, e, c);
    if done.fault.Some? then done
    else
      done.(transport := done.transport.(completed := done.transport.completed + [(c.destination, c.count)],
                                         pending := Remove(done.transport.pending, c)))
  }

  function CompleteAll(s: Settings, t: Transport, p: Prims, e: Entry, ready: seq<Command>): Completion
    decreases |ready|
  {
    if ready == [] then Completion(t, p, None)
    else
      var first := Complete(s, t, p, e, ready[0]);
      if first.fault.Some? then first else CompleteAll(s, first.transport, first.prims, e, ready[1..])
  }

  function CountDown(commands: seq<Command>): (r: seq<Command>)
    ensures |r| == |commands|
  {
    seq(|commands|, k requires 0 <= k < |commands| => commands[k].(cycles := commands[k].cycles - 1))
  }

  function Ready(commands: seq<Command>): seq<Command> {
    if commands == [] then []
    else (if commands[0].cycles == 0 then [commands[0]] else []) + Ready(commands[1..])
  }

  /** One clock of the transport engine. */
  function Tick(s: Settings, t: Transport, p: Prims, e: Entry): Completion {
    var t' := t.(pending := CountDown(t.pending));
    CompleteAll(s, t', p, e, Ready(t'.pending))
  }

  // ---------------------------------------------------------------- Facts

  /** Issue faults carry the reasons of the source and nothing else. */
  lemma IssueReasons(s: Settings, t: Transport, latency: int, i: Instruction, r: Registers, e: Entry, p: Prims)
    ensures var issue := IssueCommand(s, t, latency, i, r, e, p); issue.Refused? ==> issue.fault.reason in {1, 5, 9}
  {
  }

  lemma {:induction false} PushAllReasons(input: Reservoir, words: seq<nat>)
    ensures PushAll(input, words).1.None? || PushAll(input, words).1 == Some(PUSH_FAULT)
    decreases |words|
  {
    if words != [] && CanPush(input.words, words[0]) {
      PushAllReasons(Push(input, words[0]), words[1..]);
    }
  }

  lemma CompleteReasons(s: Settings, t: Transport, p: Prims, e: Entry, c: Command)
    ensures Complete(s, t, p, e, c).fault.Some? ==> Complete(s, t, p, e, c).fault.value.reason in {5, 9}
  {
    PushAllReasons(p.input, RefillWords(c.payload, t.inputCursor, |s.inputData|));
  }

  lemma {:induction false} CompleteAllReasons(s: Settings, t: Transport, p: Prims, e: Entry, ready: seq<Command>)
    ensures CompleteAll(s, t, p, e, ready).fault.Some? ==> CompleteAll(s, t, p, e, ready).fault.value.reason in {5, 9}
    decreases |ready|
  {
    if ready == [] {
    } else {
      CompleteReasons(s, t, p, e, ready[0]);
      var first := Complete(s, t, p, e, ready[0]);
      if first.fault.None? {
        CompleteAllReasons(s, first.transport, first.prims, e, ready[1..]);
      }
    }
  }

  /** With one command outstanding a clock either counts down or completes it. */
  lemma TickOne(s: Settings, t: Transport, p: Prims, e: Entry)
    requires |t.pending| <= 1
    ensures t.pending == [] ==> Tick(s, t, p, e) == Completion(t, p, None)
    ensures |t.pending| == 1 && t.pending[0].cycles != 1 ==>
      Tick(s, t, p, e) == Completion(t.(pending := CountDown(t.pending)), p, None)
    ensures |t.pending| == 1 && t.pending[0].cycles == 1 ==>
      Tick(s, t, p, e) == Complete(s, t.(pending := CountDown(t.pending)), p, e, CountDown(t.pending)[0])
  {
    var after := CountDown(t.pending);
    if t.pending == [] {
      assert after == t.pending;
    } else {
      assert after[1..] == [];
      assert Ready(after) == if after[0].cycles == 0 then after else [];
      var first := Complete(s, t.(pending := after), p, e, after[0]);
      assert CompleteAll(s, first.transport, first.prims, e, after[1..])
        == Completion(first.transport, first.prims, None);
    }
  }

  /** The words a refill pushes are the packed payload. */
  lemma {:induction false} RefillWordsPack(payload: seq<byte>, position: nat, total: nat)
    requires position + |payload| <= total
    ensures RefillWords(payload, position, total) == PackWords(payload, position + |payload| == total)
    decreases |payload|
  {
    if payload == [] {
    } else {
      if |payload| <= 4 {
        assert Slice(payload, 0, 4) == payload;
        assert payload[|payload|..] == [];
      } else {
        assert Slice(payload, 0, 4) == payload[..4];
        RefillWordsPack(payload[4..], position + 4, total);
      }
    }
  }
}

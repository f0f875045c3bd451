/** What a transfer does from the step that issues it to the tick that completes it: the
    bytes it carries, where it leaves them, and what it reports. */
module Transfers {
  import opened Common
  import opened Arithmetic
  import opened BitStream
  import opened Isa
  import opened Memory
  import opened Reservoir
  import opened Transport
  import opened Machine
  import opened Steps
  import Conservation

  // ---------------------------------------------------------------- Issue

  /** The state behind the issue of a transfer. */
  function Under(m: Machine, i: Instruction, t: Transport): Machine {
    m.(transport := Some(t), transportDst := {i.dst})
  }

  /** An unpredicated INPUT_REFILL of `src1` bytes puts the next input bytes on the way, as
      many as are asked for and left, or stalls until the FIFO has space for their words. */
  lemma RefillIssues(c: Config, w: Timing, m: Machine)
    requires c.Valid() && Calm(m) && Legal(c, m) && m.prims.Some? && m.transport.Some?
    requires m.transport.value.inputCursor <= |c.settings.inputData|
    requires var i := c.program[m.core.pc]; i.cls == TRANSPORT && i.opcode == INPUT_REFILL && i.predicate_ == 0
    ensures var i, o, t := c.program[m.core.pc], Step(c, w, m), m.transport.value;
      var offset, count := Reg(m.core.registers, i.src0), Reg(m.core.registers, i.src1);
      var n := Min(count, |c.settings.inputData| - t.inputCursor);
      if count < 4 || count > 256 || count % 4 != 0 || offset % 4 != 0 || offset + count > c.entry.scratchBytes then
        o == Trap(5, m)
      else if |m.prims.value.input.words| + (n + 3) / 4 > 64 then o == Stall(w, m)
      else
        var payload := c.settings.inputData[t.inputCursor..t.inputCursor + n];
        var command := Command(INPUT_REFILL, i.dst, offset, n, payload, Max(1, w.latency));
        Arrives(c, o, Under(m, i, t.(pending := [command])), m.core.pc + 1)
  {
    hide Ticks, ValidInstruction, Stall, Step;
    CalmStep(c, w, m);
    var i := c.program[m.core.pc];
    assert m.transportDst + {i.dst} == {i.dst};
    assert forall command: Command :: m.transport.value.pending + [command] == [command];
  }

  /** An unpredicated output command puts the bytes at `src0` on the way, if they have been
      stored, make whole frames, and the output has space for them. */
  lemma OutputIssues(c: Config, w: Timing, m: Machine)
    requires c.Valid() && Calm(m) && Legal(c, m) && m.prims.Some? && m.transport.Some?
    requires var i := c.program[m.core.pc];
      i.cls == TRANSPORT && i.opcode in {OUTPUT_COMMIT, OUTPUT_STREAM} && i.predicate_ == 0
    ensures var i, o, t, p := c.program[m.core.pc], Step(c, w, m), m.transport.value, m.prims.value;
      var offset, count := Reg(m.core.registers, i.src0), Reg(m.core.registers, i.src1);
      var address := c.entry.scratchBase + offset;
      if || count < 1 || count > 256 || offset % 4 != 0 || offset + count > c.entry.scratchBytes
         || count % c.settings.outputFrameBytes != 0 || (i.opcode == OUTPUT_STREAM) != c.settings.streamOutput
         || p.outputFifo != [] then o == Trap(5, m)
      else if i.opcode == OUTPUT_COMMIT && |t.output| + count > c.settings.outputCapacity then o == Trap(9, m)
      else if address + count > LOCAL_DATA_BYTES || !WordsValid(p.memory, address, count) then o == Trap(5, m)
      else
        var payload := p.memory.data[address..address + count];
        var command := Command(i.opcode, i.dst, offset, count, payload, Max(1, w.latency));
        Arrives(c, o,
                Under(m, i, t.(pending := [command], outputCommands := t.outputCommands + [(i.opcode, count)],
                               issued := t.issued + payload)),
                m.core.pc + 1)
  {
    hide Ticks, ValidInstruction, Stall, Step, WordsValid;
    CalmStep(c, w, m);
    var i := c.program[m.core.pc];
    assert m.transportDst + {i.dst} == {i.dst};
    assert forall command: Command :: m.transport.value.pending + [command] == [command];
  }

  // ---------------------------------------------------------------- Completion

  /** One command is under way and completes at the next tick. */
  predicate Landing(m: Machine, command: Command) {
    && m.prims.Some? && m.transport.Some? && m.transport.value.pending == [command] && m.transport.value.completed == []
    && command.cycles == 1 && command.destination < 16 && m.transportDst == {command.destination}
  }

  /** A command with more than one cycle left comes one cycle nearer and does nothing else. */
  lemma CommandApproaches(c: Config, m: Machine, command: Command)
    requires m.prims.Some? && m.transport.Some? && m.transport.value.pending == [command]
    requires m.transport.value.completed == [] && command.cycles > 1
    ensures TickTransport(c, m)
      == m.(transport := Some(m.transport.value.(pending := [command.(cycles := command.cycles - 1)])))
  {
    var t := m.transport.value;
    assert CountDown(t.pending) == [command.(cycles := command.cycles - 1)];
    TickOne(c.settings, t, m.prims.value, c.entry);
  }

  /** The state behind the completion: the count is written and nothing is under way. */
  function Landed(m: Machine, command: Command, t: Transport, p: Prims): Machine
    requires command.destination < 16
  {
    m.(core := m.core.(registers := m.core.registers[command.destination := ToWord(command.count)]),
       transport := Some(t.(pending := [])), prims := Some(p), transportDst := {})
  }

  lemma LandingTick(c: Config, m: Machine, command: Command)
    requires Landing(m, command)
    ensures var t := m.transport.value.(pending := [command.(cycles := 0)]);
      var done := if command.IsRefill() then
        CompleteRefill(c.settings, t, m.prims.value, c.entry, command.(cycles := 0))
        else CompleteOutput(t, m.prims.value, c.entry, command.(cycles := 0));
      && (done.fault.None? && done.transport.pending == t.pending && done.transport.completed == [] ==>
            TickTransport(c, m) == Landed(m, command, done.transport, done.prims))
      && (done.fault.Some? ==>
            TickTransport(c, m)
            == m.(prims := Some(done.prims), transport := Some(done.transport), transportFault := done.fault))
  {
    hide CompleteRefill, CompleteOutput;
    var t, p := m.transport.value, m.prims.value;
    var landed := command.(cycles := 0);
    assert CountDown(t.pending) == [landed];
    TickOne(c.settings, t, p, c.entry);
    var counted := t.(pending := [landed]);
    var done := if command.IsRefill() then CompleteRefill(c.settings, counted, p, c.entry, landed)
      else CompleteOutput(counted, p, c.entry, landed);
    assert Remove([landed], landed) == [];
    if done.fault.None? && done.transport.pending == counted.pending && done.transport.completed == [] {
      var finished := done.transport.(completed := [] + [(command.destination, command.count)], pending := []);
      assert [] + [(command.destination, command.count)] == [(command.destination, command.count)];
      Conservation.DrainSingle(m.(prims := Some(done.prims)), finished);
      assert {command.destination} - {command.destination} == {};
    }
  }

  /** A refill that completes leaves its bytes in scratch memory from its offset on and at the
      end of the input stream, and reports how many there are. */
  lemma RefillLands(c: Config, m: Machine, command: Command)
    requires Landing(m, command) && command.IsRefill() && command.payload != [] && command.count == |command.payload|
    requires |m.prims.value.input.words| + (|command.payload| + 3) / 4 <= 64
    requires m.transport.value.inputCursor + |command.payload| <= |c.settings.inputData|
    requires m.prims.value.memory.tableBytes <= c.entry.scratchBase
    requires command.offset + |command.payload| <= c.entry.scratchBytes
    requires c.entry.scratchBase + c.entry.scratchBytes <= LOCAL_DATA_BYTES
    ensures var m', n := TickTransport(c, m), |command.payload|;
      var base, p := c.entry.scratchBase + command.offset, m.prims.value;
      && m'.prims.Some? && m'.transportFault == m.transportFault
      && var p' := m'.prims.value;
      && m' == Landed(m, command, m.transport.value.(inputCursor := m.transport.value.inputCursor + n), p')
      && p' == p.(memory := p'.memory, input := p'.input)
      && Stream(p'.input) == Stream(p.input) + Bits(command.payload)
      && forall a :: 0 <= a < LOCAL_DATA_BYTES ==>
        p'.memory.data[a] == if base <= a < base + n then command.payload[a - base] else p.memory.data[a]
  {
    hide RefillWords, PackWords, PushAll, Touched, WordsBytes, Stream, Bits, Splice;
    var t := m.transport.value.(pending := [command.(cycles := 0)]);
    var words := RefillWords(command.payload, t.inputCursor, |c.settings.inputData|);
    var last := t.inputCursor + |command.payload| == |c.settings.inputData|;
    LandingTick(c, m, command);
    RefillWordsPack(command.payload, t.inputCursor, |c.settings.inputData|);
    PackedBytes(command.payload, last);
    Conservation.PushAllFits(m.prims.value.input, words);
    PushedStream(m.prims.value.input, words);
    PackedStream(command.payload, last);
  }

  /** Pushing words appends their bits. */
  lemma {:induction false} PushedStream(input: Reservoir, words: seq<nat>)
    requires |input.words| + |words| <= FIFO_DEPTH
    requires forall w :: w in words ==> WordOk(w) && w < 0x200_0000_0000
    ensures Stream(PushAll(input, words).0) == Stream(input) + WordsBits(words)
    decreases |words|
  {
    hide WordOk, Bits, WordBytes;
    if words == [] {
      assert Stream(input) + [] == Stream(input);
    } else {
      assert words[0] in words;
      PushStores(input, words[0]);
      var next := Push(input, words[0]);
      PushedStream(next, words[1..]);
      WordsBitsAppend(input.words, words[0]);
      assert Stream(next) == Stream(input) + Bits(WordBytes(words[0]));
      assert Stream(input) + Bits(WordBytes(words[0])) + WordsBits(words[1..])
          == Stream(input) + (Bits(WordBytes(words[0])) + WordsBits(words[1..]));
    }
  }

  /** An output command that completes appends its bytes to the output, publishes the length
      of the output in the context word of the scratch window, and reports its count. */
  lemma OutputLands(c: Config, m: Machine, command: Command)
    requires Landing(m, command) && !command.IsRefill()
    requires m.prims.value.memory.tableBytes <= c.entry.scratchBase && c.entry.scratchBytes >= 64
    requires c.entry.scratchBase + c.entry.scratchBytes <= LOCAL_DATA_BYTES
    ensures var m' := TickTransport(c, m);
      var output, p := m.transport.value.output + command.payload, m.prims.value;
      var context := c.entry.scratchBase + c.entry.scratchBytes - 20;
      && m'.prims.Some? && m'.transportFault == m.transportFault
      && var p' := m'.prims.value;
      && m' == Landed(m, command, m.transport.value.(output := output), p')
      && p' == p.(memory := p'.memory)
      && forall a :: 0 <= a < LOCAL_DATA_BYTES ==>
        p'.memory.data[a] ==
          if context <= a < context + 4 then WordBytesLE(|output|)[a - context] else p.memory.data[a]
  {
    hide Touched, Splice, WordBytesLE;
    LandingTick(c, m, command);
  }
}

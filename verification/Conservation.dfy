/** Conservation in the transport engine over whole runs: input bytes reach the FIFO
    once each and in order, output bytes add up to the commands issued, and the
    logical counters never run ahead of the physical ones. */
module Conservation {
  import opened Common
  import opened Isa
  import opened Memory
  import opened Reservoir
  import opened Transport
  import opened Machine

  /** The engine takes words off the input FIFO and never puts any on it. */
  ghost predicate EngineConsumes(c: Config) {
    forall i, r, e, p ::
      c.engine(i, r, e, p).prims.input.pushed == p.input.pushed
        && |c.engine(i, r, e, p).prims.input.words| <= |p.input.words|
  }

  function TotalBytes(commands: seq<(nat, nat)>): nat {
    if commands == [] then 0 else TotalBytes(commands[..|commands| - 1]) + commands[|commands| - 1].1
  }

  function OutputInFlight(pending: seq<Command>): seq<byte> {
    if pending != [] && !pending[0].IsRefill() then pending[0].payload else []
  }

  /** A refill in flight carries the next input bytes and has FIFO space reserved. */
  ghost predicate RefillReady(s: Settings, t: Transport, p: Prims, command: Command) {
    var n := |command.payload|;
    && t.inputCursor + n <= |s.inputData|
    && command.payload == s.inputData[t.inputCursor..t.inputCursor + n]
    && command.count == n
    && |p.input.words| + (n + 3) / 4 <= FIFO_DEPTH
  }

  ghost predicate InputBooks(s: Settings, t: Transport, p: Prims) {
    && t.inputCursor <= |s.inputData|
    && WordsBytes(p.input.pushed) == s.inputData[..t.inputCursor]
    && (t.pending != [] && t.pending[0].IsRefill() ==> RefillReady(s, t, p, t.pending[0]))
  }

  ghost predicate OutputBooks(s: Settings, t: Transport) {
    && t.output + OutputInFlight(t.pending) == t.issued && |t.issued| == TotalBytes(t.outputCommands)
    && (!s.streamOutput ==> |t.issued| <= s.outputCapacity)
    && (t.pending != [] && !t.pending[0].IsRefill() ==> |t.pending[0].payload| == t.pending[0].count)
  }

  ghost predicate LogicalBooks(s: Settings, t: Transport) {
    && t.logicalInput <= t.inputCursor
    && t.logicalOutput <= |t.output|
    && (t.logicalOutput < WORD_MAX ==> t.logicalOutput == t.frames * s.outputFrameBytes)
  }

  /** At most one command is in flight and the scoreboard holds its register. */
  ghost predicate OneCommand(m: Machine)
    requires m.transport.Some?
  {
    var t := m.transport.value;
    t.completed == [] && |t.pending| <= 1 && (t.pending != [] ==> m.transportDst != {})
    && (|t.pending| == 1 ==> t.pending[0].cycles >= 1 && m.transportDst == {t.pending[0].destination})
    && (t.pending == [] ==> m.transportDst == {})
  }

  ghost predicate Books(s: Settings, t: Transport, p: Prims) {
    InputBooks(s, t, p) && OutputBooks(s, t) && LogicalBooks(s, t)
  }

  /** What holds even while a transport fault waits to be reported: a payload whose
      publication failed has already reached the output. */
  ghost predicate Ledger(s: Settings, t: Transport, p: Prims) {
    && t.inputCursor <= |s.inputData| && WordsBytes(p.input.pushed) == s.inputData[..t.inputCursor]
    && t.output <= t.issued && |t.issued| == TotalBytes(t.outputCommands)
    && (!s.streamOutput ==> |t.issued| <= s.outputCapacity)
    && LogicalBooks(s, t)
  }

  lemma BooksAreLedger(s: Settings, t: Transport, p: Prims)
    requires Books(s, t, p)
    ensures Ledger(s, t, p)
  {
  }

  /** The command that failed stays behind and completes no more. */
  predicate Halted(t: Transport) {
    t.completed == [] && |t.pending| <= 1 && (t.pending != [] ==> t.pending[0].cycles <= 0)
  }

  /** The books of a state that may be about to report a transport fault. */
  ghost predicate Settled(s: Settings, m: Machine) {
    && m.transport.Some? && m.prims.Some? && m.transportFault != Some(PUSH_FAULT)
    && Ledger(s, m.transport.value, m.prims.value)
  }

  ghost predicate Accounted(s: Settings, m: Machine) {
    && Settled(s, m)
    && (m.transportFault.None? ==> OneCommand(m) && Books(s, m.transport.value, m.prims.value))
    && (m.transportFault.Some? ==> Halted(m.transport.value))
  }

  // ---------------------------------------------------------------- Completion

  /** Pushing never overflows while space is reserved, and logs every word. */
  lemma {:induction false} PushAllFits(input: Reservoir, words: seq<nat>)
    requires |input.words| + |words| <= FIFO_DEPTH
    requires forall w :: w in words ==> WordOk(w) && w < 0x200_0000_0000
    ensures var (after, fault) := PushAll(input, words);
      fault.None? && after.pushed == input.pushed + words && after.words == input.words + words
    decreases |words|
  {
    if words == [] {
    } else {
      PushAllFits(Push(input, words[0]), words[1..]);
      assert [words[0]] + words[1..] == words;
    }
  }

  /** A reserved refill never overflows the FIFO; it delivers exactly its bytes. */
  lemma RefillConserves(s: Settings, t: Transport, p: Prims, e: Entry, command: Command)
    requires InputBooks(s, t, p) && RefillReady(s, t, p, command)
    ensures var done := CompleteRefill(s, t, p, e, command);
      && done.fault != Some(PUSH_FAULT)
      && (done.fault.None? ==>
            && done.transport == t.(inputCursor := t.inputCursor + |command.payload|)
            && WordsBytes(done.prims.input.pushed) == s.inputData[..t.inputCursor + |command.payload|])
  {
    hide RefillWords, PackWords, PushAll, Touched, WordsBytes;
    var words := RefillWords(command.payload, t.inputCursor, |s.inputData|);
    var last := t.inputCursor + |command.payload| == |s.inputData|;
    RefillWordsPack(command.payload, t.inputCursor, |s.inputData|);
    PackedBytes(command.payload, last);
    PushAllFits(p.input, words);
    WordsBytesAppend(p.input.pushed, words);
    assert s.inputData[..t.inputCursor] + command.payload == s.inputData[..t.inputCursor + |command.payload|];
  }

  lemma CompleteConserves(s: Settings, t: Transport, p: Prims, e: Entry)
    requires Books(s, t, p) && |t.pending| == 1 && t.completed == []
    ensures var done := Complete(s, t, p, e, t.pending[0]);
      && done.fault != Some(PUSH_FAULT) && Ledger(s, done.transport, done.prims)
      && (done.fault.None? ==>
            && Books(s, done.transport, done.prims) && done.transport.pending == []
            && done.transport.completed == [(t.pending[0].destination, t.pending[0].count)])
      && (done.fault.Some? ==> done.transport.pending == t.pending && done.transport.completed == [])
  {
    hide WordsBytes, RefillWords, PushAll, Touched;
    var command := t.pending[0];
    assert t.pending == [command] && Remove([command], command) == [];
    if command.IsRefill() {
      RefillConserves(s, t, p, e, command);
      PushAllReasons(p.input, RefillWords(command.payload, t.inputCursor, |s.inputData|));
    }
  }

  lemma TickConserves(c: Config, m: Machine)
    requires Accounted(c.settings, m)
    ensures Accounted(c.settings, TickTransport(c, m))
  {
    if m.transportFault.None? {
      TickBooks(c, m);
    } else {
      TickHalted(c, m);
    }
  }

  lemma TickBooks(c: Config, m: Machine)
    requires Accounted(c.settings, m) && m.transportFault.None?
    ensures Accounted(c.settings, TickTransport(c, m))
  {
    hide Complete, Books, Ledger;
    var s, t, p := c.settings, m.transport.value, m.prims.value;
    TickOne(s, t, p, c.entry);
    if t.pending == [] {
      assert Drain(m, t) == m;
    } else {
      var t' := t.(pending := CountDown(t.pending));
      CountDownBooks(s, t, p);
      if t.pending[0].cycles == 1 {
        CompleteConserves(s, t', p, c.entry);
        var done := Complete(s, t', p, c.entry, t'.pending[0]);
        if done.fault.None? {
          DrainSingle(m.(prims := Some(done.prims)), done.transport);
          IgnoreCompleted(s, done.transport, done.prims);
          BooksAreLedger(s, done.transport.(completed := []), done.prims);
        }
      } else {
        assert Drain(m, t') == m.(transport := Some(t'));
        BooksAreLedger(s, t', p);
      }
    }
  }

  lemma TickHalted(c: Config, m: Machine)
    requires Accounted(c.settings, m) && m.transportFault.Some?
    ensures Accounted(c.settings, TickTransport(c, m))
  {
    hide WordsBytes;
    var s, t, p := c.settings, m.transport.value, m.prims.value;
    TickOne(s, t, p, c.entry);
    if t.pending == [] {
      assert Drain(m, t) == m;
    } else {
      var t' := t.(pending := CountDown(t.pending));
      assert Drain(m, t') == m.(transport := Some(t'));
    }
  }

  lemma CountDownBooks(s: Settings, t: Transport, p: Prims)
    requires Books(s, t, p) && |t.pending| == 1
    ensures Books(s, t.(pending := CountDown(t.pending)), p)
  {
  }

  lemma IgnoreCompleted(s: Settings, t: Transport, p: Prims)
    requires Books(s, t, p)
    ensures Books(s, t.(completed := []), p)
  {
  }

  lemma DrainSingle(m: Machine, t: Transport)
    requires |t.completed| == 1
    ensures Drain(m, t) ==
      m.(core := m.core.(registers := SetReg(m.core.registers, t.completed[0].0, t.completed[0].1)),
         transportDst := m.transportDst - {t.completed[0].0}, transport := Some(t.(completed := [])))
  {
    assert t.completed[1..] == [];
  }

  /** Kernel activity touches neither the FIFO nor the transport. */
  lemma SameBooks(s: Settings, m: Machine, m': Machine)
    requires Accounted(s, m)
    requires m'.transport == m.transport && m'.transportDst == m.transportDst && m'.transportFault == m.transportFault
    requires m'.prims.Some? && m'.prims.value.input.pushed == m.prims.value.input.pushed
    requires |m'.prims.value.input.words| <= |m.prims.value.input.words|
    ensures Accounted(s, m')
  {
  }

  lemma TicksConserve(c: Config, m: Machine)
    requires Accounted(c.settings, m)
    ensures Accounted(c.settings, Ticks(c, m))
  {
    hide TickTransport, Books, OneCommand;
    SameBooks(c.settings, m, TickKernel(m));
    TickConserves(c, TickKernel(m));
  }

  // ---------------------------------------------------------------- Issue

  lemma IssueConserves(s: Settings, t: Transport, latency: int, i: Instruction, r: Registers, e: Entry, p: Prims)
    requires Books(s, t, p) && t.pending == [] && t.completed == [] && i.opcode <= OUTPUT_STREAM
    ensures var issue := IssueCommand(s, t, latency, i, r, e, p);
      issue.Accepted? ==>
        && Books(s, issue.transport, p) && issue.transport.completed == []
        && |issue.transport.pending| == 1
        && issue.transport.pending[0].cycles >= 1 && issue.transport.pending[0].destination == i.dst
  {
    hide Read;
    var issue := IssueCommand(s, t, latency, i, r, e, p);
    if issue.Accepted? && i.opcode != INPUT_REFILL {
      ReadSize(p.memory, e.scratchBase + Reg(r, i.src0), Reg(r, i.src1), e, false);
      var added := issue.transport.outputCommands;
      assert added[..|added| - 1] == t.outputCommands;
    }
  }

  lemma ReadSize(m: Memory, address: int, size: int, e: Entry, table: bool)
    ensures Read(m, address, size, e, table).Ok? ==> |Read(m, address, size, e, table).value| == size
  {
  }

  lemma JobConserves(s: Settings, t: Transport, latency: int, i: Instruction, r: Registers, e: Entry, p: Prims)
    requires Books(s, t, p) && t.pending == [] && t.completed == [] && i.opcode > OUTPUT_STREAM
    ensures var issue := IssueCommand(s, t, latency, i, r, e, p);
      issue.Accepted? ==>
        Books(s, issue.transport, p) && issue.transport.pending == [] && issue.transport.completed == [(i.dst, 0)]
  {
    hide BitOr, BitAnd;
    assert t.completed + [(i.dst, 0)] == [(i.dst, 0)];
    if i.opcode == FRAME_COMMIT && t.logicalOutput < WORD_MAX {
      assert (t.frames + 1) * s.outputFrameBytes == t.frames * s.outputFrameBytes + s.outputFrameBytes;
      FramesBelow(t, s);
    }
  }

  lemma FramesBelow(t: Transport, s: Settings)
    requires LogicalBooks(s, t) && t.logicalOutput < WORD_MAX
    ensures t.frames <= t.logicalOutput
  {
    assert t.frames * s.outputFrameBytes >= t.frames;
  }

  lemma TransportStepConserves(c: Config, w: Timing, m: Machine, i: Instruction)
    requires Accounted(c.settings, m) && m.transportFault.None? && PendingRegisters(m) == {}
    ensures Accounted(c.settings, TransportStep(c, w, m, i).m)
  {
    hide IssueCommand, Books, Ledger, TickTransport;
    var s, t, p := c.settings, m.transport.value, m.prims.value;
    var issue := IssueCommand(s, t, w.latency, i, m.core.registers, c.entry, p);
    if issue.Accepted? {
      if i.opcode <= OUTPUT_STREAM {
        IssueConserves(s, t, w.latency, i, m.core.registers, c.entry, p);
        BooksAreLedger(s, issue.transport, p);
      } else {
        JobConserves(s, t, w.latency, i, m.core.registers, c.entry, p);
        JobLands(c, m.(transport := Some(issue.transport)));
        IgnoreCompleted(s, issue.transport, p);
        BooksAreLedger(s, issue.transport.(completed := []), p);
      }
    }
  }

  lemma JobLands(c: Config, m: Machine)
    requires m.transport.Some? && m.prims.Some? && m.transport.value.pending == [] && |m.transport.value.completed| == 1
    requires m.transportDst == {} && m.transportFault.None?
    ensures var m' := TickTransport(c, m);
      && m'.transport == Some(m.transport.value.(completed := [])) && m'.prims == m.prims && m'.transportDst == {}
      && m'.transportFault.None? && m'.core.retired == m.core.retired
  {
    TickOne(c.settings, m.transport.value, m.prims.value, c.entry);
    DrainSingle(m, m.transport.value);
  }

  // ---------------------------------------------------------------- Steps and runs

  lemma {:induction false} CyclesConserve(c: Config, w: Timing, m: Machine, n: nat)
    requires Accounted(c.settings, m)
    ensures Accounted(c.settings, Cycles(c, w, m, n).m)
    decreases n
  {
    hide Ticks;
    if n == 0 {
    } else {
      TicksConserve(c, m);
      var o := Cycle(c, w, m);
      SameBooks(c.settings, Ticks(c, m), o.m);
      if o.Next? {
        CyclesConserve(c, w, o.m, n - 1);
      }
    }
  }

  lemma PrimitiveStepConserves(c: Config, w: Timing, m: Machine, i: Instruction)
    requires EngineConsumes(c) && Accounted(c.settings, m)
    ensures Accounted(c.settings, PrimitiveStep(c, w, m, i).m)
  {
    hide Books, Ledger, OneCommand, Halted, Cycles, Refill, ApplyWrites;
    var o := PrimitiveStep(c, w, m, i);
    var p := Buffered(i, m.core.registers, m.prims.value);
    RefillKeepsStream(m.prims.value.input, RequiredBits(i, m.core.registers));
    var result := Invoke(c, m.core.registers, p, i);
    if FifoBlocked(i, m.prims.value) || Starved(i, m.core.registers, p) || i.cls == KERNEL || result.Faulted? {
      SameBooks(c.settings, m, o.m);
    } else {
      var written := m.(prims := Some(result.prims),
        core := m.core.(registers := ApplyWrites(m.core.registers, result.writes)));
      SameBooks(c.settings, m, written);
      var idle := Max(w.cycles(i, m.core.registers, p) - 1, 0);
      CyclesConserve(c, w, written, idle);
      SameBooks(c.settings, Cycles(c, w, written, idle).m, o.m);
    }
  }

  /** The transport fault the step reports, if that is how it ends. */
  function Reports(c: Config, m: Machine, event: Event): Option<Fault> {
    if event.StepEvent? && c.InRange(m.core.pc) && Ticks(c, m).kernel.fault.None? then Ticks(c, m).transportFault
      else None
  }

  lemma DecideConserves(c: Config, w: Timing, m: Machine, i: Instruction)
    requires EngineConsumes(c) && Accounted(c.settings, m)
    ensures var o := Decide(c, w, m, i);
      Settled(c.settings, o.m) && (m.kernel.fault.Some? || m.transportFault.None? ==> Accounted(c.settings, o.m))
  {
    hide Books, Ledger, OneCommand, TransportStep, PrimitiveStep, ValidInstruction, ControlStep, ScalarStep, WaitReady;
    var o := Decide(c, w, m, i);
    if m.transportFault.None? && i.cls == TRANSPORT && PendingRegisters(m) == {} {
      TransportStepConserves(c, w, m, i);
    }
    if i.cls > SCALAR {
      PrimitiveStepConserves(c, w, m, i);
      NothingPending(m, i);
    }
    if o.m.transport == m.transport && o.m.transportDst == m.transportDst && o.m.transportFault == m.transportFault
      && o.m.prims == m.prims {
      SameBooks(c.settings, m, o.m);
    }
  }

  lemma EventConserves(c: Config, w: Timing, m: Machine, event: Event)
    requires c.Valid() && EngineConsumes(c) && Accounted(c.settings, m)
    ensures var o := Happen(c, w, m, event);
      && Settled(c.settings, o.m) && Reports(c, m, event) != Some(PUSH_FAULT)
      && (Reports(c, m, event).None? ==> Accounted(c.settings, o.m))
      && (o.Next? ==> Reports(c, m, event).None?)
  {
    hide Books, Ledger, OneCommand, Ticks, Admit;
    TicksConserve(c, m);
    var m1 := Ticks(c, m);
    if event.CycleEvent? {
      SameBooks(c.settings, m1, Happen(c, w, m, event).m);
    } else if c.InRange(m.core.pc) {
      DecideConserves(c, w, m1, c.program[m.core.pc]);
    }
  }

  /** The transport fault a run ends by reporting. */
  function Reported(c: Config, w: Timing, m: Machine, events: seq<Event>): Option<Fault>
    requires c.Valid()
    decreases |events|
  {
    if events == [] then None
    else
      var o := Happen(c, w, m, events[0]);
      if o.Next? then Reported(c, w, o.m, events[1..]) else Reports(c, m, events[0])
  }

  lemma {:induction false} ExecConserves(c: Config, w: Timing, m: Machine, events: seq<Event>)
    requires c.Valid() && EngineConsumes(c) && Accounted(c.settings, m)
    ensures var o := Exec(c, w, m, events);
      && Settled(c.settings, o.m) && Reported(c, w, m, events) != Some(PUSH_FAULT)
      && (Reported(c, w, m, events).None? ==> Accounted(c.settings, o.m))
    decreases |events|
  {
    hide Accounted, Settled, Happen, Reports;
    if events == [] {
      AccountedIsSettled(c.settings, m);
    } else {
      EventConserves(c, w, m, events[0]);
      var o := Happen(c, w, m, events[0]);
      if o.Next? {
        ExecConserves(c, w, o.m, events[1..]);
      }
    }
  }

  lemma AccountedIsSettled(s: Settings, m: Machine)
    requires Accounted(s, m)
    ensures Settled(s, m)
  {
  }

  /** In every run, however it ends: the input words delivered so far spell
      `inputData[..inputCursor]`, the output is a prefix of the ordered concatenation of
      the payloads commanded, which respects the capacity, the logical counters stay
      within the physical ones, and no push ever overflows the FIFO. Unless the run is
      about to report a transport fault, output and payload in flight together are
      exactly what was commanded. */
  lemma TransportConserves(c: Config, w: Timing, memory: Memory, events: seq<Event>)
    requires c.Valid() && EngineConsumes(c)
    ensures var boot := Boot(c, Some(memory), true);
      var o := Exec(c, w, boot, events);
      && o.m.transport.Some? && o.m.prims.Some? && Ledger(c.settings, o.m.transport.value, o.m.prims.value)
      && o.m.transportFault != Some(PUSH_FAULT) && Reported(c, w, boot, events) != Some(PUSH_FAULT)
      && (o.m.transportFault.None? && Reported(c, w, boot, events).None? ==>
            Books(c.settings, o.m.transport.value, o.m.prims.value))
  {
    hide Exec, Reported;
    var m := Boot(c, Some(memory), true);
    assert Accounted(c.settings, m);
    ExecConserves(c, w, m, events);
  }
}

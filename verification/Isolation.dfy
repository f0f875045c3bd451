/** Non-interference between jobs, for whole runs of the machine: what an earlier job
    left in scratch memory cannot influence a later one. */
module Isolation {
  import opened Common
  import opened Isa
  import opened Memory
  import opened Reservoir
  import opened Transport
  import opened Machine

  /** Two engine states that differ in invisible memory bytes only. */
  ghost predicate AlikePrims(p: Prims, q: Prims, e: Entry) {
    q == p.(memory := q.memory) && Agree(p.memory, q.memory) && EntryFits(p.memory, e)
  }

  ghost predicate AlikeResults(a: EngineResult, b: EngineResult, e: Entry) {
    && AlikePrims(a.prims, b.prims, e)
    && match a
       case Executed(_, writes) => b.Executed? && b.writes == writes
       case Faulted(_, fault) => b.Faulted? && b.fault == fault
  }

  // ---------------------------------------------------------------- What a run must cover

  /** A condition on one engine call: instruction, registers and engine state. */
  type CallTest = (Instruction, Registers, Prims) -> bool

  /** The state an engine call sees. */
  function Called(i: Instruction, p: Prims): Prims { if i.cls == KERNEL then p.(kernelDone := false) else p }

  /** Calls that pass the test cannot tell alike states apart. */
  ghost predicate BlindWhere(c: Config, covers: CallTest) {
    forall i, r, p, q :: covers(i, r, p) && AlikePrims(p, q, c.entry) ==>
      AlikeResults(c.engine(i, r, c.entry, p), c.engine(i, r, c.entry, q), c.entry)
  }

  /** Nor do their cycle counts. */
  ghost predicate CyclesBlindWhere(c: Config, w: Timing, covers: CallTest) {
    forall i, r, p, q :: covers(i, r, Called(i, p)) && AlikePrims(p, q, c.entry) ==>
      w.cycles(i, r, p) == w.cycles(i, r, q)
  }

  /** A refill that completes at the next clock covers the words it touches. */
  ghost predicate RefillCovers(c: Config, m: Machine) {
    m.transport.Some? && m.prims.Some? && m.transport.value.pending != [] ==>
      var command := m.transport.value.pending[0];
      command.IsRefill() && command.cycles == 1 ==>
        Covers(m.prims.value.memory, c.entry.scratchBase + command.offset, |command.payload|)
  }

  /** The instruction gets past predication, the scoreboard and the FIFO stalls. */
  ghost predicate Calls(c: Config, w: Timing, m: Machine, i: Instruction) {
    && m.kernel.fault.None? && m.transportFault.None? && ValidInstruction(i, c.target, c.abi)
    && m.core.retired < c.entry.maxRetired && PredicateHolds(c, w, m, i.predicate_) && !PendingDependency(m, i)
    && i.cls > SCALAR && i.cls != TRANSPORT && m.prims.Some? && !FifoBlocked(i, m.prims.value)
    && !Starved(i, m.core.registers, Buffered(i, m.core.registers, m.prims.value))
  }

  /** If the instruction calls the engine, the call passes the test. */
  ghost predicate CallCovered(c: Config, w: Timing, covers: CallTest, m: Machine, i: Instruction) {
    Calls(c, w, m, i) ==>
      covers(i, m.core.registers, Called(i, Buffered(i, m.core.registers, m.prims.value)))
  }

  ghost predicate EventCovered(c: Config, w: Timing, covers: CallTest, m: Machine, event: Event)
    requires c.Valid()
  {
    && RefillCovers(c, m)
    && (event.StepEvent? && c.InRange(m.core.pc) ==> CallCovered(c, w, covers, Ticks(c, m), c.program[m.core.pc]))
  }

  /** Every refill this run completes covers the words it touches, and every engine call
      it makes passes the test. */
  ghost predicate CoveredRun(c: Config, w: Timing, covers: CallTest, m: Machine, events: seq<Event>)
    requires c.Valid()
    decreases |events|
  {
    events == [] ||
    (EventCovered(c, w, covers, m, events[0]) &&
     (Happen(c, w, m, events[0]).Next? ==> CoveredRun(c, w, covers, Happen(c, w, m, events[0]).m, events[1..])))
  }

  // ---------------------------------------------------------------- Engines are clients

  /** An engine that uses the memory through bounded reads and writes: what it does
      is a client session, and its result is computed from the answers. */
  datatype Script = Script(
    client: (Instruction, Registers, Entry, Prims) -> Client,
    steps: (Instruction, Registers, Entry, Prims) -> nat,
    finish: (Instruction, Registers, Entry, Prims, seq<Response>) -> EngineResult)

  /** The engine state with its memory masked, which is all a script may look at. */
  function Masked(p: Prims): Prims {
    p.(memory := Memory(seq(LOCAL_DATA_BYTES, _ => 0), {}, 0, false))
  }

  function RunScript(s: Script, i: Instruction, r: Registers, e: Entry, p: Prims): EngineResult {
    var view := Masked(p);
    var (memory, answers) := Session(s.client(i, r, e, view), p.memory, e, [], s.steps(i, r, e, view));
    var result := s.finish(i, r, e, view, answers);
    result.(prims := result.prims.(memory := memory))
  }

  /** Every store of this call covers the words it touches, or finds them valid. */
  ghost predicate StoresCover(s: Script, e: Entry, i: Instruction, r: Registers, p: Prims) {
    WholeWords(s.client(i, r, e, Masked(p)), p.memory, e, [], s.steps(i, r, e, Masked(p)))
  }

  /** The test every script engine passes blindly. */
  ghost function CoveringCalls(s: Script, e: Entry): CallTest {
    (i: Instruction, r: Registers, p: Prims) => StoresCover(s, e, i, r, p)
  }

  /** Whatever the script: its calls that cover the words they store to are blind. */
  lemma ScriptsAreBlind(c: Config, s: Script)
    requires forall i, r, p :: c.engine(i, r, c.entry, p) == RunScript(s, i, r, c.entry, p)
    ensures BlindWhere(c, CoveringCalls(s, c.entry))
  {
    forall i, r, p, q | CoveringCalls(s, c.entry)(i, r, p) && AlikePrims(p, q, c.entry)
      ensures AlikeResults(c.engine(i, r, c.entry, p), c.engine(i, r, c.entry, q), c.entry)
    {
      ScriptBlind(s, i, r, c.entry, p, q);
    }
  }

  lemma ScriptBlind(s: Script, i: Instruction, r: Registers, e: Entry, p: Prims, q: Prims)
    requires AlikePrims(p, q, e) && StoresCover(s, e, i, r, p)
    ensures AlikeResults(RunScript(s, i, r, e, p), RunScript(s, i, r, e, q), e)
  {
    hide Session, WholeWords;
    var view := Masked(p);
    assert view == Masked(q);
    SessionsAgree(s.client(i, r, e, view), p.memory, q.memory, e, [], s.steps(i, r, e, view));
    SessionKeepsTables(s.client(i, r, e, view), p.memory, e, [], s.steps(i, r, e, view));
  }

  lemma SessionKeepsTables(client: Client, m: Memory, e: Entry, answers: seq<Response>, steps: nat)
    requires EntryFits(m, e)
    ensures EntryFits(Session(client, m, e, answers, steps).0, e)
  {
    SessionStaysInWindow(client, m, e, answers, steps);
  }

  // ---------------------------------------------------------------- The relation

  ghost predicate Alike(c: Config, m: Machine, n: Machine) {
    && m.prims.Some? && n.prims.Some? && AlikePrims(m.prims.value, n.prims.value, c.entry)
    && n == m.(prims := n.prims)
    && (m.transport.Some? ==> |m.transport.value.pending| <= 1)
    && (m.transport.Some? && m.transportFault.None? ==>
          m.transport.value.completed == [] && (m.transport.value.pending != [] ==> m.transportDst != {}))
  }

  ghost predicate AlikeOutcomes(c: Config, o: Outcome, a: Outcome) {
    match o
    case Next(m) => a.Next? && Alike(c, m, a.m)
    case Done(m) => a.Done? && Alike(c, m, a.m)
    case Trap(reason, m) => a.Trap? && a.reason == reason && a.m.core == m.core && a.m.transport == m.transport
  }

  lemma AlignedCovers(m: Memory, address: int, size: int)
    requires address % 4 == 0 && size % 4 == 0
    ensures Covers(m, address, size)
  {
  }

  // ---------------------------------------------------------------- Ticks

  /** The states of two transports after the same completion. */
  ghost predicate AlikeCompletions(c: Config, a: Completion, b: Completion) {
    && AlikePrims(a.prims, b.prims, c.entry) && b.transport == a.transport && b.fault == a.fault
  }

  lemma WriteAlike(p: Prims, q: Prims, e: Entry, address: int, payload: seq<byte>)
    requires AlikePrims(p, q, e) && Covers(p.memory, address, |payload|)
    ensures match Write(p.memory, address, payload, e)
      case Ok(memory) =>
        && Write(q.memory, address, payload, e).Ok?
        && Agree(memory, Write(q.memory, address, payload, e).value) && EntryFits(memory, e)
      case Err(fault) => Write(q.memory, address, payload, e) == Err(fault)
  {
    hide Agree, Covers;
    CoveredWriteAgrees(p.memory, q.memory, address, payload, e);
  }

  lemma CompleteAlike(c: Config, t: Transport, p: Prims, q: Prims, command: Command)
    requires AlikePrims(p, q, c.entry)
    requires command.IsRefill() ==> Covers(p.memory, c.entry.scratchBase + command.offset, |command.payload|)
    ensures AlikeCompletions(c, Complete(c.settings, t, p, c.entry, command),
      Complete(c.settings, t, q, c.entry, command))
  {
    hide Write, Agree, PushAll, Covers;
    if command.IsRefill() {
      WriteAlike(p, q, c.entry, c.entry.scratchBase + command.offset, command.payload);
    } else {
      AlignedCovers(p.memory, ContextAddress(c.entry), 4);
      WriteAlike(p, q, c.entry, ContextAddress(c.entry), WordBytesLE(|t.output + command.payload|));
    }
  }

  /** What a clock may do to the transfers, given at most one in flight. */
  lemma TickOneCommand(c: Config, t: Transport, p: Prims)
    requires |t.pending| <= 1
    ensures var done := Tick(c.settings, t, p, c.entry);
      && |done.transport.pending| <= 1 && (t.pending == [] ==> done.transport.pending == [] && done.fault.None?)
      && (done.fault.None? && done.transport.pending == [] && t.pending != [] ==>
            done.transport.completed == t.completed + [(t.pending[0].destination, t.pending[0].count)])
      && (done.fault.None? && done.transport.pending != [] ==> done.transport.completed == t.completed)
  {
    hide Write, PushAll, RefillWords;
    TickOne(c.settings, t, p, c.entry);
    if t.pending != [] {
      var command := CountDown(t.pending)[0];
      assert CountDown(t.pending) == [command] && Remove([command], command) == [];
    }
  }

  lemma TickAlike(c: Config, t: Transport, p: Prims, q: Prims)
    requires AlikePrims(p, q, c.entry) && |t.pending| <= 1
    requires t.pending != [] && t.pending[0].IsRefill() && t.pending[0].cycles == 1 ==>
      Covers(p.memory, c.entry.scratchBase + t.pending[0].offset, |t.pending[0].payload|)
    ensures AlikeCompletions(c, Tick(c.settings, t, p, c.entry), Tick(c.settings, t, q, c.entry))
  {
    hide Complete, Agree, Covers;
    TickOne(c.settings, t, p, c.entry);
    TickOne(c.settings, t, q, c.entry);
    if t.pending != [] && t.pending[0].cycles == 1 {
      var command := CountDown(t.pending)[0];
      CompleteAlike(c, t.(pending := CountDown(t.pending)), p, q, command);
    }
  }

  lemma {:induction false} DrainAlike(m: Machine, n: Machine, t: Transport)
    requires n == m.(prims := n.prims)
    ensures Drain(n, t) == Drain(m, t).(prims := n.prims)
    ensures Drain(m, t).prims == m.prims && Drain(m, t).transport == Some(t.(completed := []))
    ensures Drain(m, t).transportFault == m.transportFault
    ensures t.completed == [] ==> Drain(m, t).transportDst == m.transportDst
    decreases |t.completed|
  {
    if t.completed == [] {
    } else {
      var (register, value) := t.completed[0];
      DrainAlike(m.(core := m.core.(registers := SetReg(m.core.registers, register, value)),
        transportDst := m.transportDst - {register}),
                 n.(core := n.core.(registers := SetReg(n.core.registers, register, value)),
                   transportDst := n.transportDst - {register}),
                 t.(completed := t.completed[1..]));
    }
  }

  lemma TransportTickAlike(c: Config, m: Machine, n: Machine)
    requires Alike(c, m, n) && RefillCovers(c, m)
    ensures Alike(c, TickTransport(c, m), TickTransport(c, n))
  {
    hide Tick, Agree, EntryFits, Covers;
    if m.transport.Some? {
      var t, p, q := m.transport.value, m.prims.value, n.prims.value;
      TickAlike(c, t, p, q);
      TickOneCommand(c, t, p);
      var a, b := Tick(c.settings, t, p, c.entry), Tick(c.settings, t, q, c.entry);
      DrainAlike(m.(prims := Some(a.prims)), n.(prims := Some(b.prims)), a.transport);
    }
  }

  lemma KernelTickAlike(c: Config, m: Machine, n: Machine)
    requires Alike(c, m, n) && RefillCovers(c, m)
    ensures Alike(c, TickKernel(m), TickKernel(n)) && RefillCovers(c, TickKernel(m))
  {
    hide Agree, Covers;
  }

  lemma TicksAlike(c: Config, m: Machine, n: Machine)
    requires Alike(c, m, n) && RefillCovers(c, m)
    ensures Alike(c, Ticks(c, m), Ticks(c, n))
  {
    hide TickKernel, TickTransport, Alike, RefillCovers;
    KernelTickAlike(c, m, n);
    TransportTickAlike(c, TickKernel(m), TickKernel(n));
  }

  predicate Idle(m: Machine) { m.transport.Some? ==> m.transport.value.pending == [] }

  /** With nothing in flight a clock completes nothing. */
  lemma IdleTicks(c: Config, m: Machine)
    requires Idle(m)
    ensures RefillCovers(c, m) && Idle(Ticks(c, m))
  {
    var k := TickKernel(m);
    if m.transport.Some? && k.prims.Some? {
      TickOne(c.settings, m.transport.value, k.prims.value, c.entry);
      DrainAlike(k, k, m.transport.value);
    }
  }

  lemma StallAlike(c: Config, w: Timing, m: Machine, n: Machine)
    requires Alike(c, m, n)
    ensures AlikeOutcomes(c, Stall(w, m), Stall(w, n))
  {
    hide Agree;
  }

  lemma {:induction false} CyclesAlike(c: Config, w: Timing, m: Machine, n: Machine, k: nat)
    requires Alike(c, m, n) && Idle(m)
    ensures AlikeOutcomes(c, Cycles(c, w, m, k), Cycles(c, w, n, k))
    ensures !Cycles(c, w, m, k).Done?
    decreases k
  {
    hide Ticks, Stall, Alike, RefillCovers;
    if k == 0 {
    } else {
      IdleTicks(c, m);
      TicksAlike(c, m, n);
      StallAlike(c, w, Ticks(c, m), Ticks(c, n));
      var o, a := Cycle(c, w, m), Cycle(c, w, n);
      StallKind(w, Ticks(c, m));
      if o.Next? {
        CyclesAlike(c, w, o.m, a.m, k - 1);
      }
    }
  }

  lemma StallKind(w: Timing, m: Machine)
    ensures !Stall(w, m).Done? && Stall(w, m).m.transport == m.transport
  {
  }

  lemma AdvanceAlike(c: Config, m: Machine, n: Machine, pc: int)
    requires Alike(c, m, n)
    ensures AlikeOutcomes(c, Advance(c, m, pc), Advance(c, n, pc))
  {
    hide Agree;
  }

  // ---------------------------------------------------------------- Instructions

  lemma IssueAlike(c: Config, w: Timing, t: Transport, i: Instruction, r: Registers, p: Prims, q: Prims)
    requires AlikePrims(p, q, c.entry) && t.pending == [] && t.completed == []
    ensures var issue := IssueCommand(c.settings, t, w.latency, i, r, c.entry, p);
      && IssueCommand(c.settings, t, w.latency, i, r, c.entry, q) == issue
      && (issue.Accepted? ==>
            && |issue.transport.pending| <= 1
            && (i.opcode <= OUTPUT_STREAM ==> issue.transport.completed == [])
            && (i.opcode > OUTPUT_STREAM ==> issue.transport.pending == []))
  {
    hide BitOr, BitAnd, Read, Agree;
    ReadsAgree(p.memory, q.memory, c.entry.scratchBase + Reg(r, i.src0), Reg(r, i.src1), c.entry, false);
  }

  lemma TransportAlike(c: Config, w: Timing, m: Machine, n: Machine, i: Instruction)
    requires Alike(c, m, n) && m.transportFault.None? && PendingRegisters(m) == {}
    ensures AlikeOutcomes(c, TransportStep(c, w, m, i), TransportStep(c, w, n, i))
  {
    hide IssueCommand, Agree, Advance, Stall, TickTransport;
    StallAlike(c, w, m, n);
    if m.transport.Some? {
      var t, p, q := m.transport.value, m.prims.value, n.prims.value;
      IssueAlike(c, w, t, i, m.core.registers, p, q);
      var issue := IssueCommand(c.settings, t, w.latency, i, m.core.registers, c.entry, p);
      if issue.Accepted? {
        var issued, twin := m.(transport := Some(issue.transport)), n.(transport := Some(issue.transport));
        if i.opcode <= OUTPUT_STREAM {
          AdvanceAlike(c, issued.(transportDst := issued.transportDst + {i.dst}),
            twin.(transportDst := twin.transportDst + {i.dst}), m.core.pc + 1);
        } else {
          JobTickAlike(c, issued, twin);
          AdvanceAlike(c, TickTransport(c, issued), TickTransport(c, twin), m.core.pc + 1);
        }
      }
    }
  }

  lemma JobTickAlike(c: Config, m: Machine, n: Machine)
    requires m.transport.Some? && m.transport.value.pending == [] && m.transportFault.None?
    requires Alike(c, m.(transport := Some(m.transport.value.(completed := []))),
      n.(transport := Some(m.transport.value.(completed := []))))
    requires n.transport == m.transport
    ensures Alike(c, TickTransport(c, m), TickTransport(c, n))
  {
    hide Agree;
    TickOne(c.settings, m.transport.value, m.prims.value, c.entry);
    TickOne(c.settings, n.transport.value, n.prims.value, c.entry);
    DrainAlike(m, n, m.transport.value);
  }

  lemma PrimitiveAlike(c: Config, w: Timing, covers: CallTest, m: Machine, n: Machine, i: Instruction)
    requires BlindWhere(c, covers) && CyclesBlindWhere(c, w, covers) && Alike(c, m, n) && Idle(m)
    requires (!FifoBlocked(i, m.prims.value)
              && !Starved(i, m.core.registers, Buffered(i, m.core.registers, m.prims.value))) ==>
      covers(i, m.core.registers, Called(i, Buffered(i, m.core.registers, m.prims.value)))
    ensures AlikeOutcomes(c, PrimitiveStep(c, w, m, i), PrimitiveStep(c, w, n, i))
  {
    hide Agree, Advance, Stall, Refill, Cycles;
    StallAlike(c, w, m, n);
    var r := m.core.registers;
    var p, q := Buffered(i, r, m.prims.value), Buffered(i, r, n.prims.value);
    StallAlike(c, w, m.(prims := Some(p)), n.(prims := Some(q)));
    if !FifoBlocked(i, m.prims.value) && !Starved(i, r, p) {
      assert AlikePrims(Called(i, p), Called(i, q), c.entry);
      var a, b := c.engine(i, r, c.entry, Called(i, p)), c.engine(i, r, c.entry, Called(i, q));
      assert AlikeResults(a, b, c.entry);
      assert w.cycles(i, r, p) == w.cycles(i, r, q);
      var idle := Max(w.cycles(i, r, p) - 1, 0);
      if i.cls == KERNEL {
        KernelAlike(c, m, n, i, a, b, idle);
      } else if a.Executed? {
        var x := m.(prims := Some(a.prims), core := m.core.(registers := ApplyWrites(r, a.writes)));
        var y := n.(prims := Some(b.prims), core := n.core.(registers := ApplyWrites(r, b.writes)));
        CyclesAlike(c, w, x, y, idle);
        var o, u := Cycles(c, w, x, idle), Cycles(c, w, y, idle);
        if o.Next? {
          AdvanceAlike(c, o.m, u.m, m.core.pc + 1);
        }
      }
    }
  }

  lemma KernelAlike(c: Config, m: Machine, n: Machine, i: Instruction, a: EngineResult, b: EngineResult, idle: nat)
    requires Alike(c, m, n) && AlikeResults(a, b, c.entry)
    ensures var kernel := m.kernel.(result := Some(if a.Executed? then a.writes else map[]),
                                    pendingFault := if a.Executed? then m.kernel.pendingFault else Some(a.fault),
                                    pendingDst := Some(i.dst), cycles := if a.Executed? then idle else 0);
      var x, y := m.(prims := Some(a.prims.(kernelDone := false)), kernel := kernel),
        n.(prims := Some(b.prims.(kernelDone := false)), kernel := kernel);
      && AlikeOutcomes(c, Advance(c, CompleteKernel(x), m.core.pc + 1), Advance(c, CompleteKernel(y), m.core.pc + 1))
      && AlikeOutcomes(c, Advance(c, x, m.core.pc + 1), Advance(c, y, m.core.pc + 1))
  {
    hide Agree;
  }

  lemma ExecuteAlike(c: Config, w: Timing, covers: CallTest, m: Machine, n: Machine, i: Instruction)
    requires BlindWhere(c, covers) && CyclesBlindWhere(c, w, covers) && Alike(c, m, n) && m.transportFault.None?
    requires i.cls > SCALAR ==> PendingRegisters(m) == {}
    requires
      && i.cls > SCALAR && i.cls != TRANSPORT && !FifoBlocked(i, m.prims.value)
      && !Starved(i, m.core.registers, Buffered(i, m.core.registers, m.prims.value)) ==>
        covers(i, m.core.registers, Called(i, Buffered(i, m.core.registers, m.prims.value)))
    ensures AlikeOutcomes(c, Execute(c, w, m, i), Execute(c, w, n, i))
  {
    hide Agree, Advance, Stall, PrimitiveStep, TransportStep, ControlStep, ScalarStep, BlindWhere, CyclesBlindWhere;
    StallAlike(c, w, m, n);
    if i.cls == CONTROL {
      var drained := m.transport.None? || m.transport.value.pending == [];
      var effect := ControlStep(c.entry, m.core, i, drained, WaitReady(i, m.prims, m.transport));
      if effect.Goto? {
        AdvanceAlike(c, m.(core := effect.core), n.(core := effect.core), effect.pc);
      }
    } else if i.cls == SCALAR {
      AdvanceAlike(c, m.(core := ScalarStep(m.core, i)), n.(core := ScalarStep(m.core, i)), m.core.pc + 1);
    } else if i.cls == TRANSPORT {
      TransportAlike(c, w, m, n, i);
    } else {
      PrimitiveAlike(c, w, covers, m, n, i);
    }
  }

  lemma DecideAlike(c: Config, w: Timing, covers: CallTest, m: Machine, n: Machine, i: Instruction)
    requires BlindWhere(c, covers) && CyclesBlindWhere(c, w, covers) && Alike(c, m, n)
      && CallCovered(c, w, covers, m, i)
    ensures AlikeOutcomes(c, Decide(c, w, m, i), Decide(c, w, n, i))
  {
    hide Agree, Execute, Stall, ValidInstruction, BlindWhere, CyclesBlindWhere, EntryFits, Starved, FifoBlocked,
      Buffered;
    StallAlike(c, w, m, n);
    assert PendingDependency(m, i) == PendingDependency(n, i);
    assert PredicateHolds(c, w, m, i.predicate_) == PredicateHolds(c, w, n, i.predicate_);
    if Decide(c, w, m, i) == Execute(c, w, m, i) && Admitted(c, w, m, i) {
      if i.cls > SCALAR {
        NothingPending(m, i);
      }
      ExecuteAlike(c, w, covers, m, n, i);
    }
  }

  /** The instruction is executed, not skipped, held or refused. */
  predicate Admitted(c: Config, w: Timing, m: Machine, i: Instruction) {
    && m.kernel.fault.None? && m.transportFault.None? && ValidInstruction(i, c.target, c.abi)
    && m.core.retired < c.entry.maxRetired && PredicateHolds(c, w, m, i.predicate_) && !PendingDependency(m, i)
  }

  // ---------------------------------------------------------------- Runs

  lemma EventAlike(c: Config, w: Timing, covers: CallTest, m: Machine, n: Machine, event: Event)
    requires c.Valid() && BlindWhere(c, covers) && CyclesBlindWhere(c, w, covers)
    requires Alike(c, m, n) && EventCovered(c, w, covers, m, event)
    ensures AlikeOutcomes(c, Happen(c, w, m, event), Happen(c, w, n, event))
  {
    hide Alike, BlindWhere, CyclesBlindWhere, RefillCovers, CallCovered, Ticks, Decide, Stall;
    assert n.core == m.core && n.transport == m.transport by { AlikeCores(c, m, n); }
    TicksAlike(c, m, n);
    var m1, n1 := Ticks(c, m), Ticks(c, n);
    if event.CycleEvent? {
      StallAlike(c, w, m1, n1);
    } else if c.InRange(m.core.pc) {
      DecideAlike(c, w, covers, m1, n1, c.program[m.core.pc]);
    }
  }

  lemma {:induction false} ExecAlike(
    c: Config, w: Timing, covers: CallTest, m: Machine, n: Machine, events: seq<Event>)
    requires c.Valid() && BlindWhere(c, covers) && CyclesBlindWhere(c, w, covers)
    requires Alike(c, m, n) && CoveredRun(c, w, covers, m, events)
    ensures AlikeOutcomes(c, Exec(c, w, m, events), Exec(c, w, n, events))
    decreases |events|
  {
    hide Alike, BlindWhere, CyclesBlindWhere, EventCovered, Happen;
    if events == [] {
    } else {
      EventAlike(c, w, covers, m, n, events[0]);
      var o, a := Happen(c, w, m, events[0]), Happen(c, w, n, events[0]);
      if o.Next? {
        ExecAlike(c, w, covers, o.m, a.m, events[1..]);
      }
    }
  }

  lemma AlikeCores(c: Config, m: Machine, n: Machine)
    requires Alike(c, m, n)
    ensures n.core == m.core && n.transport == m.transport
  {
  }

  /** Two memories with the same table bytes, whatever else earlier jobs left in them. */
  predicate SameTables(left: Memory, right: Memory) {
    && left.tableBytes == right.tableBytes <= LOCAL_DATA_BYTES && left.imageValid == right.imageValid
    && left.data[..left.tableBytes] == right.data[..right.tableBytes]
  }

  lemma BootAlike(c: Config, left: Memory, right: Memory, transport: bool)
    requires SameTables(left, right) && EntryFits(left, c.entry)
    ensures Alike(c, Boot(c, Some(left), transport), Boot(c, Some(right), transport))
  {
    forall a | 0 <= a < left.tableBytes
      ensures left.data[a] == right.data[a]
    {
      assert left.data[..left.tableBytes][a] == right.data[..right.tableBytes][a];
    }
  }

  /** Non-interference between jobs: a run whose refills and engine calls cover the words
      they store to retires the same instructions, traps alike and agrees on registers,
      output and job results with the run from any other leftover scratch. */
  lemma JobsDoNotInterfere(
    c: Config, w: Timing, covers: CallTest, left: Memory, right: Memory, transport: bool, events: seq<Event>)
    requires c.Valid() && BlindWhere(c, covers) && CyclesBlindWhere(c, w, covers)
    requires SameTables(left, right) && EntryFits(left, c.entry)
    requires CoveredRun(c, w, covers, Boot(c, Some(left), transport), events)
    ensures AlikeOutcomes(c, Exec(c, w, Boot(c, Some(left), transport), events),
      Exec(c, w, Boot(c, Some(right), transport), events))
  {
    hide BlindWhere, CyclesBlindWhere, Exec, CoveredRun, Alike;
    BootAlike(c, left, right, transport);
    ExecAlike(c, w, covers, Boot(c, Some(left), transport), Boot(c, Some(right), transport), events);
  }

  // ---------------------------------------------------------------- Whole words throughout

  /** Transfers move whole words: the input is a whole number of words, and so is
      every refill in flight. */
  ghost predicate WholeTransfers(c: Config, m: Machine) {
    m.transport.Some? ==>
      var t := m.transport.value;
      && |c.settings.inputData| % 4 == 0 && t.inputCursor % 4 == 0 && t.inputCursor <= |c.settings.inputData|
      && |t.pending| <= 1
      && (forall k :: 0 <= k < |t.pending| && t.pending[k].IsRefill() ==>
            |t.pending[k].payload| % 4 == 0 && t.pending[k].offset % 4 == 0
            && t.inputCursor + |t.pending[k].payload| <= |c.settings.inputData|)
  }

  lemma TransportTickWhole(c: Config, m: Machine)
    requires WholeTransfers(c, m)
    ensures WholeTransfers(c, TickTransport(c, m))
  {
    hide Write, PushAll, RefillWords;
    if m.transport.Some? && m.prims.Some? {
      var t, p := m.transport.value, m.prims.value;
      TickOne(c.settings, t, p, c.entry);
      var done := Tick(c.settings, t, p, c.entry);
      DrainAlike(m.(prims := Some(done.prims)), m.(prims := Some(done.prims)), done.transport);
      if t.pending != [] {
        var command := CountDown(t.pending)[0];
        assert CountDown(t.pending) == [command] && Remove([command], command) == [];
      }
    }
  }

  lemma TicksWhole(c: Config, m: Machine)
    requires WholeTransfers(c, m)
    ensures WholeTransfers(c, Ticks(c, m))
  {
    hide TickTransport;
    TransportTickWhole(c, TickKernel(m));
  }

  lemma {:induction false} CyclesWhole(c: Config, w: Timing, m: Machine, k: nat)
    requires WholeTransfers(c, m)
    ensures WholeTransfers(c, Cycles(c, w, m, k).m)
    decreases k
  {
    hide Ticks;
    if k == 0 {
    } else {
      TicksWhole(c, m);
      if Cycle(c, w, m).Next? {
        CyclesWhole(c, w, Cycle(c, w, m).m, k - 1);
      }
    }
  }

  /** What is left of a whole number of words is one. */
  lemma WholeRest(count: int, total: int, cursor: int)
    requires count % 4 == 0 && total % 4 == 0 && cursor % 4 == 0
    ensures Min(count, total - cursor) % 4 == 0
  {
  }

  lemma RefillWhole(c: Config, w: Timing, m: Machine, i: Instruction, offset: nat, count: nat)
    requires WholeTransfers(c, m) && m.transport.Some? && m.prims.Some? && m.transport.value.pending == []
    ensures var issue := IssueRefill(c.settings, m.transport.value, w.latency, i, offset, count, c.entry,
      m.prims.value);
      issue.Accepted? ==> WholeTransfers(c, m.(transport := Some(issue.transport)))
  {
    var t := m.transport.value;
    if count % 4 == 0 {
      WholeRest(count, |c.settings.inputData|, t.inputCursor);
    }
  }

  lemma OutputWhole(c: Config, w: Timing, m: Machine, i: Instruction, offset: nat, count: nat)
    requires WholeTransfers(c, m) && m.transport.Some? && m.prims.Some? && m.transport.value.pending == []
    requires i.opcode == OUTPUT_COMMIT || i.opcode == OUTPUT_STREAM
    ensures var issue := IssueOutput(c.settings, m.transport.value, w.latency, i, offset, count, c.entry,
      m.prims.value);
      issue.Accepted? ==> WholeTransfers(c, m.(transport := Some(issue.transport)))
  {
    hide Read;
  }

  lemma JobWhole(c: Config, m: Machine, i: Instruction, offset: nat, count: nat)
    requires WholeTransfers(c, m) && m.transport.Some?
    ensures var issue := IssueJob(c.settings, m.transport.value, i, offset, count);
      issue.Accepted? ==> WholeTransfers(c, m.(transport := Some(issue.transport)))
  {
    hide BitOr, BitAnd;
  }

  lemma TransportWhole(c: Config, w: Timing, m: Machine, i: Instruction)
    requires WholeTransfers(c, m) && (m.transport.Some? ==> m.transport.value.pending == [])
    ensures WholeTransfers(c, TransportStep(c, w, m, i).m)
  {
    hide TickTransport, IssueRefill, IssueOutput, IssueJob, WholeTransfers;
    SameTransport(c, m, TransportStep(c, w, m, i).m);
    if m.transport.Some? && m.prims.Some? {
      var t, r := m.transport.value, m.core.registers;
      var issue := IssueCommand(c.settings, t, w.latency, i, r, c.entry, m.prims.value);
      if i.opcode == INPUT_REFILL {
        RefillWhole(c, w, m, i, Reg(r, i.src0), Reg(r, i.src1));
      } else if i.opcode == OUTPUT_COMMIT || i.opcode == OUTPUT_STREAM {
        OutputWhole(c, w, m, i, Reg(r, i.src0), Reg(r, i.src1));
      } else {
        JobWhole(c, m, i, Reg(r, i.src0), Reg(r, i.src1));
      }
      if issue.Accepted? {
        var issued := m.(transport := Some(issue.transport));
        TransportTickWhole(c, issued);
        SameTransport(c, issued, TransportStep(c, w, m, i).m);
        SameTransport(c, TickTransport(c, issued), TransportStep(c, w, m, i).m);
      }
    }
  }

  lemma PrimitiveWhole(c: Config, w: Timing, m: Machine, i: Instruction)
    requires WholeTransfers(c, m)
    ensures WholeTransfers(c, PrimitiveStep(c, w, m, i).m)
  {
    hide Cycles, Refill;
    if m.prims.Some? {
      var p := Buffered(i, m.core.registers, m.prims.value);
      var result := Invoke(c, m.core.registers, p, i);
      if result.Executed? {
        CyclesWhole(c, w,
          m.(prims := Some(result.prims), core := m.core.(registers := ApplyWrites(m.core.registers, result.writes))),
          Max(w.cycles(i, m.core.registers, p) - 1, 0));
      }
    }
  }

  lemma EventWhole(c: Config, w: Timing, m: Machine, event: Event)
    requires c.Valid() && WholeTransfers(c, m) && Alike(c, Ticks(c, m), Ticks(c, m))
    ensures WholeTransfers(c, Happen(c, w, m, event).m)
  {
    hide Ticks, PrimitiveStep, TransportStep, ControlStep, ScalarStep, WaitReady, ValidInstruction, WholeTransfers,
      AlikePrims;
    TicksWhole(c, m);
    var m1 := Ticks(c, m);
    if event.StepEvent? && c.InRange(m.core.pc) {
      var i := c.program[m.core.pc];
      PrimitiveWhole(c, w, m1, i);
      if i.cls == TRANSPORT && m1.transportFault.None? && !PendingDependency(m1, i) {
        NothingPending(m1, i);
        TransportWhole(c, w, m1, i);
      }
    }
    SameTransport(c, m1, Happen(c, w, m, event).m);
  }

  lemma SameTransport(c: Config, m: Machine, n: Machine)
    ensures WholeTransfers(c, m) && n.transport == m.transport ==> WholeTransfers(c, n)
  {
  }

  /** Where the input is a whole number of words and every engine call passes the test,
      every run is covered. */
  lemma {:induction false} WholeRunsAreCovered(c: Config, w: Timing, covers: CallTest, m: Machine, events: seq<Event>)
    requires c.Valid() && BlindWhere(c, covers) && CyclesBlindWhere(c, w, covers)
    requires Alike(c, m, m) && WholeTransfers(c, m)
    requires forall i, r, p: Prims :: EntryFits(p.memory, c.entry) ==> covers(i, r, p)
    ensures CoveredRun(c, w, covers, m, events)
    decreases |events|
  {
    hide BlindWhere, CyclesBlindWhere, Ticks, Happen, Calls;
    if events == [] {
    } else {
      WholeRefillCovers(c, m);
      TicksAlike(c, m, m);
      assert EventCovered(c, w, covers, m, events[0]);
      EventAlike(c, w, covers, m, m, events[0]);
      EventWhole(c, w, m, events[0]);
      var o := Happen(c, w, m, events[0]);
      if o.Next? {
        WholeRunsAreCovered(c, w, covers, o.m, events[1..]);
      }
    }
  }

  lemma WholeRefillCovers(c: Config, m: Machine)
    requires Alike(c, m, m) && WholeTransfers(c, m)
    ensures RefillCovers(c, m)
  {
    hide Agree;
    if m.transport.Some? && m.transport.value.pending != [] && m.transport.value.pending[0].IsRefill() {
      var command := m.transport.value.pending[0];
      AlignedCovers(m.prims.value.memory, c.entry.scratchBase + command.offset, |command.payload|);
    }
  }
}

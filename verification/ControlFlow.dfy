/** The static control-flow verifier: a linear scan that pairs loops, followed by
    a worklist exploration of abstract states (program counter, return stack,
    active loop starts). The verifier is proved exact: it accepts precisely the
    programs whose loops are paired and whose reachable abstract states are all
    safe, few enough, and include a terminal. */
module ControlFlow {
  import opened Common
  import opened Isa

  datatype Context = Context(program: seq<Instruction>, entry: Entry, target: Target, abi: Abi) {
    predicate Valid() { ValidPcRange(entry, |program|, abi) }

    predicate InRange(pc: int) { entry.firstPc <= pc <= entry.lastPc }

    predicate IsControl(pc: int, opcode: nat)
      requires Valid()
    {
      InRange(pc) && program[pc].cls == CONTROL && program[pc].opcode == opcode
    }

    function Slot(pc: int): nat
      requires Valid() && InRange(pc)
    {
      program[pc].aux % 4
    }
  }

  // ---------------------------------------------------------------- Loop pairing

  /** `pc` opens or closes loop slot `slot` */
  predicate LoopOp(c: Context, pc: int, slot: nat)
    requires c.Valid()
  {
    (c.IsControl(pc, LOOP_SETUP) || c.IsControl(pc, LOOP_BACK)) && c.Slot(pc) == slot
  }

  ghost predicate Quiet(c: Context, lo: int, hi: int, slot: nat)
    requires c.Valid()
  {
    forall q :: lo <= q < hi ==> !LoopOp(c, q, slot)
  }

  /** The LOOP_SETUP at `setup` and the LOOP_BACK at `back` are consecutive uses
      of one slot. */
  ghost predicate Brackets(c: Context, setup: int, back: int)
    requires c.Valid()
  {
    && setup < back && c.IsControl(setup, LOOP_SETUP) && c.IsControl(back, LOOP_BACK)
    && c.Slot(setup) == c.Slot(back)
    && Quiet(c, setup + 1, back, c.Slot(back))
  }

  ghost predicate HasBack(c: Context, setup: int, limit: int)
    requires c.Valid()
  {
    exists back :: setup < back < limit && Brackets(c, setup, back)
  }

  function LoopStart(c: Context, back: int): int
    requires c.Valid() && c.InRange(back)
  {
    back + 1 - c.program[back].immediate
  }

  /** What one program counter must satisfy for the linear scan to pass it. */
  ghost predicate WellPlaced(c: Context, pc: int)
    requires c.Valid() && c.InRange(pc)
  {
    var i := c.program[pc];
    i.cls == CONTROL ==>
      && i.opcode <= WAIT
      && (i.opcode == JUMP_FWD || i.opcode == CALL_FWD ==> pc + 1 + i.immediate <= c.entry.lastPc)
      && (i.opcode == LOOP_BACK ==> Brackets(c, LoopStart(c, pc) - 1, pc))
      && (i.opcode == LOOP_SETUP ==> HasBack(c, pc, c.entry.lastPc + 1))
  }

  predicate Crosses(a: (int, int), b: (int, int)) {
    a.0 < b.0 <= a.1 < b.1 || b.0 < a.0 <= b.1 < a.1
  }

  function Interval(c: Context, back: int): (int, int)
    requires c.Valid() && c.InRange(back)
  {
    (LoopStart(c, back), back)
  }

  ghost predicate NoCrossing(c: Context)
    requires c.Valid()
  {
    forall a, b :: c.IsControl(a, LOOP_BACK) && c.IsControl(b, LOOP_BACK) ==> !Crosses(Interval(c, a), Interval(c, b))
  }

  /** Loops are properly bracketed and nested, and forward branches stay inside. */
  ghost predicate WellPaired(c: Context)
    requires c.Valid()
  {
    (forall pc :: c.InRange(pc) ==> WellPlaced(c, pc)) && NoCrossing(c)
  }

  /** The slot's last loop operation before `pc` is the setup recorded in `active`. */
  ghost predicate Tracks(c: Context, active: map<nat, int>, pc: int)
    requires c.Valid()
  {
    && (forall slot :: slot in active ==>
          active[slot] < pc && c.IsControl(active[slot], LOOP_SETUP) && c.Slot(active[slot]) == slot
          && Quiet(c, active[slot] + 1, pc, slot))
    && (forall s :: s < pc && c.IsControl(s, LOOP_SETUP) ==>
          HasBack(c, s, pc) || (c.Slot(s) in active && active[c.Slot(s)] == s))
  }

  lemma TracksNothing(c: Context)
    requires c.Valid()
    ensures Tracks(c, map[], c.entry.firstPc)
  {
  }

  lemma SetupBlocked(c: Context, active: map<nat, int>, slot: nat, pc: int)
    requires c.Valid() && Tracks(c, active, pc) && slot in active
    requires pc > c.entry.lastPc || (c.IsControl(pc, LOOP_SETUP) && c.Slot(pc) == slot)
    ensures c.InRange(active[slot]) && !WellPlaced(c, active[slot])
  {
    var setup := active[slot];
    if HasBack(c, setup, c.entry.lastPc + 1) {
      var back :| setup < back < c.entry.lastPc + 1 && Brackets(c, setup, back);
      assert LoopOp(c, back, slot);
      assert back > pc;
      assert LoopOp(c, pc, slot);
    }
  }

  lemma BackBlocked(c: Context, active: map<nat, int>, pc: int)
    requires c.Valid() && Tracks(c, active, pc) && c.IsControl(pc, LOOP_BACK)
    requires c.Slot(pc) in active ==> LoopStart(c, pc) != active[c.Slot(pc)] + 1
    ensures !WellPlaced(c, pc)
  {
    var slot := c.Slot(pc);
    var s := LoopStart(c, pc) - 1;
    if Brackets(c, s, pc) {
      assert LoopOp(c, s, slot);
      if HasBack(c, s, pc) {
        var back :| s < back < pc && Brackets(c, s, back);
        assert LoopOp(c, back, slot);
      }
    }
  }

  lemma TrackSetup(c: Context, active: map<nat, int>, pc: int)
    requires c.Valid() && Tracks(c, active, pc) && c.IsControl(pc, LOOP_SETUP) && c.Slot(pc) !in active
    ensures Tracks(c, active[c.Slot(pc) := pc], pc + 1)
  {
  }

  lemma TrackBack(c: Context, active: map<nat, int>, pc: int)
    requires c.Valid() && Tracks(c, active, pc) && c.IsControl(pc, LOOP_BACK) && c.Slot(pc) in active
    requires LoopStart(c, pc) == active[c.Slot(pc)] + 1
    ensures Brackets(c, active[c.Slot(pc)], pc)
    ensures Tracks(c, active - {c.Slot(pc)}, pc + 1)
  {
    var slot := c.Slot(pc);
    assert Brackets(c, active[slot], pc);
    forall s | s < pc + 1 && c.IsControl(s, LOOP_SETUP)
      ensures HasBack(c, s, pc + 1) || (c.Slot(s) in active - {slot} && active[c.Slot(s)] == s)
    {
      if HasBack(c, s, pc) {
        var back :| s < back < pc && Brackets(c, s, back);
      }
    }
  }

  lemma TrackOther(c: Context, active: map<nat, int>, pc: int)
    requires c.Valid() && Tracks(c, active, pc)
    requires !c.IsControl(pc, LOOP_SETUP) && !c.IsControl(pc, LOOP_BACK)
    ensures Tracks(c, active, pc + 1)
  {
  }

  /** WellPlaced for everything the scan has passed, except that an open setup may
      still be waiting for its back edge. */
  ghost predicate Passed(c: Context, pc: int)
    requires c.Valid()
  {
    forall q :: c.InRange(q) && q < pc && !c.IsControl(q, LOOP_SETUP) ==> WellPlaced(c, q)
  }

  /** The interval list holds exactly the loops closed before `pc`. */
  ghost predicate Lists(c: Context, intervals: seq<(int, int)>, pc: int)
    requires c.Valid()
  {
    && (forall x :: x in intervals ==> x.1 < pc && c.IsControl(x.1, LOOP_BACK) && x == Interval(c, x.1))
    && (forall b :: b < pc && c.IsControl(b, LOOP_BACK) ==> Interval(c, b) in intervals)
  }

  ghost predicate PairsKnown(c: Context, loopPairs: map<int, int>, pc: int)
    requires c.Valid()
  {
    forall b :: b < pc && c.IsControl(b, LOOP_BACK) ==> b in loopPairs && loopPairs[b] == LoopStart(c, b)
  }

  lemma ScanEnds(c: Context)
    requires c.Valid() && Tracks(c, map[], c.entry.lastPc + 1) && Passed(c, c.entry.lastPc + 1)
    ensures forall pc :: c.InRange(pc) ==> WellPlaced(c, pc)
  {
  }

  /** The linear scan over the entry's range. */
  method ScanLoops(c: Context) returns (ok: bool, loopPairs: map<int, int>, intervals: seq<(int, int)>)
    requires c.Valid()
    ensures ok <==> forall pc :: c.InRange(pc) ==> WellPlaced(c, pc)
    ensures ok ==> PairsKnown(c, loopPairs, c.entry.lastPc + 1)
    ensures ok ==> Lists(c, intervals, c.entry.lastPc + 1)
  {
    hide Tracks, Brackets, HasBack, Quiet;
    loopPairs, intervals := map[], [];
    var active: map<nat, int> := map[];
    var pc: int := c.entry.firstPc;
    TracksNothing(c);
    while pc <= c.entry.lastPc
      invariant c.entry.firstPc <= pc <= c.entry.lastPc + 1
      invariant Tracks(c, active, pc)
      invariant Passed(c, pc)
      invariant Lists(c, intervals, pc)
      invariant PairsKnown(c, loopPairs, pc)
    {
      var i := c.program[pc];
      var slot := i.aux % 4;
      if i.cls != CONTROL {
        TrackOther(c, active, pc);
      } else if i.opcode > WAIT {
        assert !WellPlaced(c, pc);
        return false, loopPairs, intervals;
      } else if i.opcode == JUMP_FWD || i.opcode == CALL_FWD {
        if pc + 1 + i.immediate > c.entry.lastPc {
          assert !WellPlaced(c, pc);
          return false, loopPairs, intervals;
        }
        TrackOther(c, active, pc);
      } else if i.opcode == LOOP_SETUP {
        if slot in active {
          SetupBlocked(c, active, slot, pc);
          return false, loopPairs, intervals;
        }
        TrackSetup(c, active, pc);
        active := active[slot := pc];
      } else if i.opcode == LOOP_BACK {
        if slot !in active {
          BackBlocked(c, active, pc);
          return false, loopPairs, intervals;
        }
        var setup := active[slot];
        if pc + 1 - i.immediate != setup + 1 {
          BackBlocked(c, active, pc);
          return false, loopPairs, intervals;
        }
        TrackBack(c, active, pc);
        assert WellPlaced(c, pc);
        active := active - {slot};
        loopPairs := loopPairs[pc := setup + 1];
        ghost var listed := intervals;
        intervals := intervals + [(setup + 1, pc)];
        ListBack(c, listed, pc);
      } else {
        TrackOther(c, active, pc);
      }
      pc := pc + 1;
    }
    if active != map[] {
      var slot :| slot in active;
      SetupBlocked(c, active, slot, pc);
      return false, loopPairs, intervals;
    }
    ScanEnds(c);
    ok := true;
  }

  lemma ListBack(c: Context, intervals: seq<(int, int)>, pc: int)
    requires c.Valid() && Lists(c, intervals, pc) && c.IsControl(pc, LOOP_BACK)
    ensures Lists(c, intervals + [Interval(c, pc)], pc + 1)
  {
  }

  /** The pairwise test for crossing intervals. */
  method FindCrossing(intervals: seq<(int, int)>) returns (crossing: bool)
    ensures crossing <==> exists a, b ::
      0 <= a < |intervals| && 0 <= b < |intervals| && Crosses(intervals[a], intervals[b])
  {
    for first := 0 to |intervals|
      invariant forall a, b :: 0 <= a < first && a < b < |intervals| ==> !Crosses(intervals[a], intervals[b])
    {
      for second := first + 1 to |intervals|
        invariant forall b :: first < b < second ==> !Crosses(intervals[first], intervals[b])
      {
        if Crosses(intervals[first], intervals[second]) {
          return true;
        }
      }
    }
    crossing := false;
    forall a, b | 0 <= a < |intervals| && 0 <= b < |intervals|
      ensures !Crosses(intervals[a], intervals[b])
    {
      if a < b {
        assert !Crosses(intervals[a], intervals[b]);
      } else if b < a {
        assert !Crosses(intervals[b], intervals[a]);
      }
    }
  }

  lemma CrossingIff(c: Context, intervals: seq<(int, int)>)
    requires c.Valid() && Lists(c, intervals, c.entry.lastPc + 1)
    ensures NoCrossing(c) <==>
            !exists a, b :: 0 <= a < |intervals| && 0 <= b < |intervals| && Crosses(intervals[a], intervals[b])
  {
  }

  // ---------------------------------------------------------------- Abstract states

  /** An abstract machine state: `loops` maps each active slot to its loop start. */
  datatype State = State(pc: int, stack: seq<int>, loops: map<nat, int>)

  datatype EdgeKind =
    | PredicateFalse | Fallthrough | JumpTrue | CallTrue | Return
    | LoopSetup | LoopRepeat | LoopExit | WaitReady

  datatype Successor = Successor(kind: EdgeKind, state: State)

  /** What the exploration learns about one state. */
  datatype Visit = Unsafe | Visit(successors: seq<Successor>, terminal: bool)

  function Explore(c: Context, s: State): Visit
    requires c.Valid()
  {
    if !c.InRange(s.pc) then Unsafe
    else
      var i := c.program[s.pc];
      var next := s.(pc := s.pc + 1);
      var skip := if i.predicate_ != 0 then [Successor(PredicateFalse, next)] else [];
      var slot := i.aux % 4;
      if i.cls != CONTROL then Visit(skip + [Successor(Fallthrough, next)], false)
      else if i.opcode == END || i.opcode == TRAP then Visit(skip, true)
      else if i.opcode == JUMP_FWD then
        Visit(skip + [Successor(JumpTrue, s.(pc := s.pc + 1 + i.immediate))], false)
      else if i.opcode == CALL_FWD then
        if |s.stack| == 4 then Unsafe
        else Visit(skip + [Successor(CallTrue, s.(pc := s.pc + 1 + i.immediate, stack := s.stack + [s.pc + 1]))], false)
      else if i.opcode == RET then
        if s.stack == [] then Unsafe
        else
          var top := |s.stack| - 1;
          Visit(skip + [Successor(Return, s.(pc := s.stack[top], stack := s.stack[..top]))], false)
      else if i.opcode == LOOP_SETUP then
        if slot in s.loops then Unsafe
        else Visit(skip + [Successor(LoopSetup, s.(pc := s.pc + 1, loops := s.loops[slot := s.pc + 1]))], false)
      else if i.opcode == LOOP_BACK then
        if slot !in s.loops || s.loops[slot] != s.pc + 1 - i.immediate then Unsafe
        else Visit(skip + [
            Successor(LoopRepeat, s.(pc := s.loops[slot])),
            Successor(LoopExit, s.(pc := s.pc + 1, loops := s.loops - {slot}))], false)
      else if i.opcode == NOP then Visit(skip + [Successor(Fallthrough, next)], false)
      else if i.opcode == WAIT && !c.target.P3? then Visit(skip + [Successor(WaitReady, next)], false)
      else Unsafe
  }

  function Initial(c: Context): State { State(c.entry.entryPc, [], map[]) }

  ghost predicate Leads(c: Context, s: State, e: Successor)
    requires c.Valid()
  {
    Explore(c, s).Visit? && e in Explore(c, s).successors
  }

  ghost predicate Linked(c: Context, s: State, t: State)
    requires c.Valid()
  {
    exists e :: Leads(c, s, e) && e.state == t
  }

  ghost predicate IsPath(c: Context, path: seq<State>)
    requires c.Valid()
  {
    && |path| > 0 && path[0] == Initial(c)
    && forall i, j :: 0 <= i && j == i + 1 < |path| ==> Linked(c, path[i], path[j])
  }

  ghost predicate Reachable(c: Context, s: State)
    requires c.Valid()
  {
    exists path :: IsPath(c, path) && path[|path| - 1] == s
  }

  function ProofLimit(abi: Abi): nat { InstructionLimit(abi) * 64 }

  ghost predicate CoversReachable(c: Context, states: set<State>)
    requires c.Valid()
  {
    forall s :: Reachable(c, s) ==> s in states
  }

  /** The property the verifier decides. */
  ghost predicate Accepts(c: Context)
    requires c.Valid()
  {
    && WellPaired(c)
    && (forall s :: Reachable(c, s) ==> Explore(c, s).Visit?)
    && (exists states: set<State> :: CoversReachable(c, states) && |states| <= ProofLimit(c.abi))
    && (exists s :: Reachable(c, s) && Explore(c, s).Visit? && Explore(c, s).terminal)
  }

  lemma InitialReachable(c: Context)
    requires c.Valid()
    ensures Reachable(c, Initial(c))
  {
    assert IsPath(c, [Initial(c)]);
  }

  lemma ReachableStep(c: Context, s: State, e: Successor)
    requires c.Valid() && Reachable(c, s) && Leads(c, s, e)
    ensures Reachable(c, e.state)
  {
    var path :| IsPath(c, path) && path[|path| - 1] == s;
    assert Linked(c, s, e.state);
    assert IsPath(c, path + [e.state]);
  }

  /** A set that holds the initial state and is closed under successors holds
      every reachable state. */
  lemma {:induction false} ClosedHoldsPath(c: Context, states: set<State>, path: seq<State>)
    requires c.Valid() && IsPath(c, path)
    requires Initial(c) in states
    requires forall s, t :: s in states && Linked(c, s, t) ==> t in states
    ensures path[|path| - 1] in states
    decreases |path|
  {
    var n := |path|;
    if n > 1 {
      assert IsPath(c, path[..n - 1]);
      ClosedHoldsPath(c, states, path[..n - 1]);
      assert Linked(c, path[n - 2], path[n - 1]);
    }
  }

  lemma ClosedCovers(c: Context, states: set<State>)
    requires c.Valid()
    requires Initial(c) in states
    requires forall s, e :: s in states && Leads(c, s, e) ==> e.state in states
    ensures CoversReachable(c, states)
  {
    forall s, t | s in states && Linked(c, s, t)
      ensures t in states
    {
      var e :| Leads(c, s, e) && e.state == t;
    }
    forall s | Reachable(c, s)
      ensures s in states
    {
      var path :| IsPath(c, path) && path[|path| - 1] == s;
      ClosedHoldsPath(c, states, path);
    }
  }

  lemma {:induction false} SubsetSize<T>(a: set<T>, b: set<T>)
    requires a <= b
    ensures |a| <= |b|
    decreases a
  {
    if a != {} {
      var x :| x in a;
      SubsetSize(a - {x}, b - {x});
    }
  }

  // ---------------------------------------------------------------- The worklist

  datatype Report =
    | Rejected
    | Accepted(
        reachableStates: nat, maximumCallDepth: nat, terminals: set<nat>,
        edges: set<(int, int, EdgeKind)>, loops: seq<(int, int)>)

  ghost predicate Edge(c: Context, s: State, edge: (int, int, EdgeKind))
    requires c.Valid()
  {
    exists e :: Leads(c, s, e) && edge == (s.pc, e.state.pc, e.kind)
  }

  /** An accepting report describes the reachable states exactly. */
  ghost predicate Describes(c: Context, r: Report, states: set<State>)
    requires c.Valid() && r.Accepted?
  {
    && CoversReachable(c, states) && (forall s :: s in states ==> Reachable(c, s))
    && r.reachableStates == |states|
    && (forall pc: nat :: pc in r.terminals <==>
          exists s :: s in states && s.pc == pc && Explore(c, s).Visit? && Explore(c, s).terminal)
    && (forall edge :: edge in r.edges <==> exists s :: s in states && Edge(c, s, edge))
    && (forall s :: s in states ==> |s.stack| <= r.maximumCallDepth)
    && (exists s :: s in states && |s.stack| == r.maximumCallDepth)
    && Lists(c, r.loops, c.entry.lastPc + 1)
  }

  function States(successors: seq<Successor>): seq<State> {
    seq(|successors|, k requires 0 <= k < |successors| => successors[k].state)
  }

  /** What holds between two iterations of the worklist. */
  ghost predicate Frontier(c: Context, visited: set<State>, pending: seq<State>)
    requires c.Valid()
  {
    && (forall s :: s in visited ==> Reachable(c, s) && Explore(c, s).Visit?)
    && (forall s :: s in pending ==> Reachable(c, s))
    && (Initial(c) in visited || Initial(c) in pending)
    && (forall s, e :: s in visited && Leads(c, s, e) ==> e.state in visited || e.state in pending)
  }

  ghost predicate Noted(c: Context, visited: set<State>, terminals: set<nat>, edges: set<(int, int, EdgeKind)>)
    requires c.Valid()
  {
    && (forall pc: nat :: pc in terminals <==>
          exists s :: s in visited && s.pc == pc && Explore(c, s).Visit? && Explore(c, s).terminal)
    && (forall edge :: edge in edges <==> exists s :: s in visited && Edge(c, s, edge))
  }

  /** `depth` bounds every stack seen so far and is the length of one of them. */
  ghost predicate Depth(visited: set<State>, pending: seq<State>, depth: nat) {
    && (forall s :: s in visited || s in pending ==> |s.stack| <= depth)
    && (exists s :: (s in visited || s in pending) && |s.stack| == depth)
  }

  lemma FrontierAdvances(c: Context, visited: set<State>, pending: seq<State>, s: State, successors: seq<Successor>)
    requires c.Valid() && Frontier(c, visited, pending + [s])
    requires Explore(c, s).Visit? && successors == Explore(c, s).successors
    ensures Frontier(c, visited + {s}, pending + States(successors))
  {
    var after := pending + States(successors);
    assert s in pending + [s];
    forall e | e in successors
      ensures e.state in after && Reachable(c, e.state)
    {
      assert Leads(c, s, e);
      ReachableStep(c, s, e);
      var k :| 0 <= k < |successors| && successors[k] == e;
      assert after[|pending| + k] == e.state;
    }
    forall t | t in after
      ensures Reachable(c, t)
    {
      if t !in pending {
        var k :| 0 <= k < |successors| && States(successors)[k] == t;
        assert successors[k] in successors;
      }
    }
    forall t, e | t in visited + {s} && Leads(c, t, e)
      ensures e.state in visited + {s} || e.state in after
    {
      if t in visited {
        assert e.state in visited || e.state in pending + [s];
      }
    }
  }

  lemma FrontierDrops(c: Context, visited: set<State>, pending: seq<State>, s: State)
    requires c.Valid() && Frontier(c, visited, pending + [s]) && s in visited
    ensures Frontier(c, visited, pending)
  {
  }

  lemma NotedAdvances(
    c: Context, visited: set<State>, s: State, successors: seq<Successor>,
    terminals: set<nat>, edges: set<(int, int, EdgeKind)>, terminals': set<nat>, edges': set<(int, int, EdgeKind)>)
    requires c.Valid() && Noted(c, visited, terminals, edges)
    requires Explore(c, s).Visit? && successors == Explore(c, s).successors
    requires terminals' == if Explore(c, s).terminal then terminals + {s.pc} else terminals
    requires edges' == edges + set e | e in successors :: (s.pc, e.state.pc, e.kind)
    ensures Noted(c, visited + {s}, terminals', edges')
  {
  }

  lemma DepthAdvances(c: Context, visited: set<State>, pending: seq<State>, s: State, successors: seq<Successor>,
    depth: nat, depth': nat)
    requires c.Valid() && Depth(visited, pending + [s], depth)
    requires Explore(c, s).Visit? && successors == Explore(c, s).successors
    requires depth' == if c.IsControl(s.pc, CALL_FWD) then Max(depth, |s.stack| + 1) else depth
    ensures Depth(visited + {s}, pending + States(successors), depth')
  {
    var after := pending + States(successors);
    assert (pending + [s])[|pending|] == s;
    assert forall t :: t in pending ==> t in pending + [s];
    forall t | t in visited + {s} || t in after
      ensures |t.stack| <= depth'
    {
      if t !in visited && t != s && t !in pending {
        var k :| 0 <= k < |successors| && States(successors)[k] == t;
        assert successors[k] in successors;
      }
    }
    if depth' == depth {
      var t :| (t in visited || t in pending + [s]) && |t.stack| == depth;
      assert t in visited + {s} || t in after;
    } else {
      var k := |successors| - 1;
      assert States(successors)[k] == after[|pending| + k];
      assert after[|pending| + k] in after;
    }
  }

  /** `control_flow_report`: the verifier accepts exactly the programs in
      `Accepts`, and what it reports about them is exact. */
  method ControlFlowReport(c: Context) returns (r: Report)
    requires c.Valid()
    ensures r.Accepted? <==> Accepts(c)
    ensures r.Accepted? ==> exists states :: Describes(c, r, states)
  {
    hide Explore, Reachable, WellPlaced, NoCrossing, Lists, Noted, Depth, Describes;
    var ok, loopPairs, intervals := ScanLoops(c);
    if !ok {
      return Rejected;
    }
    var crossing := FindCrossing(intervals);
    CrossingIff(c, intervals);
    if crossing {
      return Rejected;
    }
    assert WellPaired(c);

    var pending := [Initial(c)];
    var visited: set<State> := {};
    var edges: set<(int, int, EdgeKind)> := {};
    var terminals: set<nat> := {};
    var depth: nat := 0;
    WorklistStarts(c);
    while pending != []
      invariant |visited| <= ProofLimit(c.abi)
      invariant Frontier(c, visited, pending)
      invariant Noted(c, visited, terminals, edges)
      invariant Depth(visited, pending, depth)
      decreases ProofLimit(c.abi) - |visited|, |pending|
    {
      var s := pending[|pending| - 1];
      ghost var before := pending;
      pending := pending[..|pending| - 1];
      assert before == pending + [s];
      assert s in before;
      if s in visited {
        FrontierDrops(c, visited, pending, s);
        DepthDrops(visited, pending, s, depth);
        continue;
      }
      var visit := Visiting(c, loopPairs, s);
      if visit.Unsafe? {
        return Rejected;
      }
      SafeInRange(c, s);
      FrontierAdvances(c, visited, pending, s, visit.successors);
      ghost var terminals0, edges0, depth0 := terminals, edges, depth;
      edges := edges + set e | e in visit.successors :: (s.pc, e.state.pc, e.kind);
      if visit.terminal {
        terminals := terminals + {s.pc};
      }
      if c.IsControl(s.pc, CALL_FWD) {
        depth := Max(depth, |s.stack| + 1);
      }
      NotedAdvances(c, visited, s, visit.successors, terminals0, edges0, terminals, edges);
      DepthAdvances(c, visited, pending, s, visit.successors, depth0, depth);
      visited := visited + {s};
      pending := pending + States(visit.successors);
      if |visited| > ProofLimit(c.abi) {
        TooMany(c, visited);
        return Rejected;
      }
    }
    ClosedCovers(c, visited);
    WorklistEnds(c, visited, terminals, edges);
    if terminals == {} {
      return Rejected;
    }
    r := Accepted(|visited|, depth, terminals, edges, intervals);
    ReportExact(c, r, visited);
  }

  lemma WorklistStarts(c: Context)
    requires c.Valid()
    ensures Frontier(c, {}, [Initial(c)]) && Noted(c, {}, {}, {}) && Depth({}, [Initial(c)], 0)
  {
  }

  lemma DepthDrops(visited: set<State>, pending: seq<State>, s: State, depth: nat)
    requires Depth(visited, pending + [s], depth) && s in visited
    ensures Depth(visited, pending, depth)
  {
  }

  lemma ReportExact(c: Context, r: Report, visited: set<State>)
    requires c.Valid() && r.Accepted? && r.reachableStates == |visited|
    requires CoversReachable(c, visited) && Frontier(c, visited, [])
    requires Noted(c, visited, r.terminals, r.edges) && Depth(visited, [], r.maximumCallDepth)
    requires Lists(c, r.loops, c.entry.lastPc + 1)
    ensures Describes(c, r, visited)
  {
    hide Explore, Reachable, Lists;
  }

  lemma SafeInRange(c: Context, s: State)
    requires c.Valid() && Explore(c, s).Visit?
    ensures c.InRange(s.pc)
  {
  }

  lemma TooMany(c: Context, visited: set<State>)
    requires c.Valid() && (forall s :: s in visited ==> Reachable(c, s)) && |visited| > ProofLimit(c.abi)
    ensures !Accepts(c)
  {
    forall states | CoversReachable(c, states)
      ensures |states| > ProofLimit(c.abi)
    {
      SubsetSize(visited, states);
    }
  }

  /** With the worklist empty, the visited states are the reachable ones. */
  lemma WorklistEnds(c: Context, visited: set<State>, terminals: set<nat>, edges: set<(int, int, EdgeKind)>)
    requires c.Valid() && WellPaired(c)
    requires CoversReachable(c, visited) && |visited| <= ProofLimit(c.abi)
    requires Frontier(c, visited, []) && Noted(c, visited, terminals, edges)
    ensures Accepts(c) <==> exists pc: nat :: pc in terminals
  {
    hide Explore, Reachable;
    if Accepts(c) {
      var s :| Reachable(c, s) && Explore(c, s).Visit? && Explore(c, s).terminal;
      assert s in visited;
      SafeInRange(c, s);
      assert s.pc in terminals;
    }
    if pc :| pc in terminals {
      var s :| s in visited && s.pc == pc && Explore(c, s).Visit? && Explore(c, s).terminal;
      assert Reachable(c, s);
    }
  }

  /** The body of one worklist iteration, with the loop start taken from the pairs
      the scan recorded. */
  method Visiting(c: Context, loopPairs: map<int, int>, s: State) returns (v: Visit)
    requires c.Valid()
    requires PairsKnown(c, loopPairs, c.entry.lastPc + 1)
    ensures v == Explore(c, s)
  {
    if s.pc < c.entry.firstPc || s.pc > c.entry.lastPc {
      return Unsafe;
    }
    var i := c.program[s.pc];
    var successors: seq<Successor> := [];
    var terminal := false;
    if i.predicate_ != 0 {
      successors := successors + [Successor(PredicateFalse, s.(pc := s.pc + 1))];
    }
    if i.cls != CONTROL {
      successors := successors + [Successor(Fallthrough, s.(pc := s.pc + 1))];
    } else if i.opcode == END || i.opcode == TRAP {
      terminal := true;
    } else if i.opcode == JUMP_FWD {
      successors := successors + [Successor(JumpTrue, s.(pc := s.pc + 1 + i.immediate))];
    } else if i.opcode == CALL_FWD {
      if |s.stack| == 4 {
        return Unsafe;
      }
      successors := successors + [Successor(CallTrue, State(s.pc + 1 + i.immediate, s.stack + [s.pc + 1], s.loops))];
    } else if i.opcode == RET {
      if s.stack == [] {
        return Unsafe;
      }
      var top := |s.stack| - 1;
      successors := successors + [Successor(Return, State(s.stack[top], s.stack[..top], s.loops))];
    } else if i.opcode == LOOP_SETUP {
      var slot := i.aux % 4;
      if slot in s.loops {
        return Unsafe;
      }
      successors := successors + [Successor(LoopSetup, State(s.pc + 1, s.stack, s.loops[slot := s.pc + 1]))];
    } else if i.opcode == LOOP_BACK {
      var slot := i.aux % 4;
      if slot !in s.loops || s.loops[slot] != loopPairs[s.pc] {
        return Unsafe;
      }
      successors := successors + [Successor(LoopRepeat, s.(pc := loopPairs[s.pc]))];
      successors := successors + [Successor(LoopExit, State(s.pc + 1, s.stack, s.loops - {slot}))];
    } else if i.opcode == NOP {
      successors := successors + [Successor(Fallthrough, s.(pc := s.pc + 1))];
    } else if i.opcode == WAIT && (c.target.P4? || c.target.P5?) {
      successors := successors + [Successor(WaitReady, s.(pc := s.pc + 1))];
    } else {
      return Unsafe;
    }
    v := Visit(successors, terminal);
  }
}

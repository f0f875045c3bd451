/** Programs without branches and loops are accepted: the verifier meets one state for
    every instruction. */
module StraightLine {
  import opened Isa
  import opened ControlFlow
  import Progress

  /** Unpredicated instructions that fall through, up to an END. */
  ghost predicate Straight(c: Context)
    requires c.Valid()
  {
    forall pc :: c.InRange(pc) ==>
      var i := c.program[pc];
      && i.predicate_ == 0
      && (i.cls == CONTROL ==> i.opcode == END || i.opcode == NOP || (i.opcode == WAIT && !c.target.P3?))
      && (pc == c.entry.lastPc ==> i.cls == CONTROL && i.opcode == END)
  }

  /** The states of the first `n` instructions. */
  function Line(c: Context, n: nat): set<State> {
    if n == 0 then {} else Line(c, n - 1) + {State(c.entry.firstPc + n - 1, [], map[])}
  }

  lemma {:induction false} LineSize(c: Context, n: nat)
    ensures |Line(c, n)| <= n
    ensures forall s :: s in Line(c, n) <==> s.stack == [] && s.loops == map[] && 0 <= s.pc - c.entry.firstPc < n
    decreases n
  {
    if n == 0 {
    } else {
      LineSize(c, n - 1);
    }
  }

  lemma StraightPaired(c: Context)
    requires c.Valid() && Straight(c)
    ensures WellPaired(c)
  {
    hide Brackets, HasBack;
  }

  lemma StraightCovered(c: Context)
    requires c.Valid() && Straight(c)
    ensures var n := c.entry.lastPc - c.entry.firstPc + 1;
      CoversReachable(c, Line(c, n)) && |Line(c, n)| <= ProofLimit(c.abi) && Progress.AllSafe(c)
  {
    hide Reachable, Line;
    var n := c.entry.lastPc - c.entry.firstPc + 1;
    LineSize(c, n);
    forall s, e | s in Line(c, n) && Leads(c, s, e)
      ensures e.state in Line(c, n)
    {
      assert c.InRange(s.pc);
    }
    ClosedCovers(c, Line(c, n));
  }

  lemma StraightAccepted(c: Context)
    requires c.Valid() && Straight(c)
    ensures Accepts(c)
  {
    hide Straight, WellPaired, CoversReachable, Progress.AllSafe, Accepts;
    StraightPaired(c);
    StraightCovered(c);
    Progress.TerminalTestRedundant(c);
  }
}

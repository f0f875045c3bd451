/** Accepted programs make progress: without repeating a loop, every path from every
    reachable state ends, and it ends at an END or a TRAP. The verifier's own test for a
    reachable terminal is therefore redundant. */
module Progress {
  import opened Arithmetic
  import opened ControlFlow

  /** No reachable state is rejected by the exploration. */
  ghost predicate AllSafe(c: Context)
    requires c.Valid()
  {
    forall s :: Reachable(c, s) ==> Explore(c, s).Visit?
  }

  /** An edge other than the repetition of a loop. */
  ghost predicate Forward(c: Context, s: State, t: State)
    requires c.Valid()
  {
    exists e :: Leads(c, s, e) && e.kind != LoopRepeat && e.state == t
  }

  ghost predicate Stuck(c: Context, s: State)
    requires c.Valid()
  {
    !exists t :: Forward(c, s, t)
  }

  ghost predicate ForwardPath(c: Context, path: seq<State>)
    requires c.Valid()
  {
    |path| > 0 && forall i, j :: 0 <= i && j == i + 1 < |path| ==> Forward(c, path[i], path[j])
  }

  // ---------------------------------------------------------------- The measure

  const POSITIONS: nat := 5

  function Base(c: Context): nat { c.entry.lastPc + 3 }

  /** The return addresses from the bottom of the stack, then the program counter; a
      position that does not exist counts as larger than any address. */
  function Digit(c: Context, s: State, k: nat): int {
    if k < |s.stack| then s.stack[k] else if k == |s.stack| then s.pc else c.entry.lastPc + 2
  }

  function Digits(c: Context, s: State): (d: seq<int>)
    ensures |d| == POSITIONS
  {
    seq(POSITIONS, k requires 0 <= k => Digit(c, s, k))
  }

  /** At most four return addresses, all of them addresses behind some instruction. */
  predicate Bounded(c: Context, s: State) {
    && |s.stack| <= 4 && (forall k :: 0 <= k < |s.stack| ==> 0 <= s.stack[k] <= c.entry.lastPc + 1)
    && 0 <= s.pc <= c.entry.lastPc
  }

  /** The number a digit string spells. */
  function Number(d: seq<int>, base: nat): int {
    if d == [] then 0 else Number(d[..|d| - 1], base) * base + d[|d| - 1]
  }

  predicate AreDigits(d: seq<int>, base: nat) {
    forall k :: 0 <= k < |d| ==> 0 <= d[k] < base
  }

  function Power(base: nat, n: nat): nat {
    if n == 0 then 1 else Power(base, n - 1) * base
  }

  lemma {:induction false} NumberBound(d: seq<int>, base: nat)
    requires base >= 1 && AreDigits(d, base)
    ensures 0 <= Number(d, base) < Power(base, |d|)
    decreases |d|
  {
    if d == [] {
    } else {
      var n := |d| - 1;
      NumberBound(d[..n], base);
      MulNonNegative(Number(d[..n], base), base);
      MulStrict(Number(d[..n], base), Power(base, n), base);
    }
  }

  /** A larger digit at the first difference makes the larger number. */
  lemma {:induction false} NumberGrows(d: seq<int>, e: seq<int>, base: nat, k: nat)
    requires base >= 1 && |d| == |e| && AreDigits(d, base) && AreDigits(e, base)
    requires k < |d| && d[..k] == e[..k] && d[k] < e[k]
    ensures Number(d, base) < Number(e, base)
    decreases |d|
  {
    var n := |d| - 1;
    if k == n {
    } else {
      assert d[..n][..k] == d[..k] && e[..n][..k] == e[..k];
      NumberGrows(d[..n], e[..n], base, k);
      MulStrict(Number(d[..n], base), Number(e[..n], base), base);
    }
  }

  lemma DigitsOfBounded(c: Context, s: State)
    requires Bounded(c, s)
    ensures AreDigits(Digits(c, s), Base(c))
  {
  }

  // ---------------------------------------------------------------- Edges

  predicate StackBounded(c: Context, s: State) {
    |s.stack| <= 4 && forall k :: 0 <= k < |s.stack| ==> 0 <= s.stack[k] <= c.entry.lastPc + 1
  }

  lemma EdgeKeepsStack(c: Context, s: State, e: Successor)
    requires c.Valid() && StackBounded(c, s) && Leads(c, s, e)
    ensures StackBounded(c, e.state)
  {
  }

  lemma {:induction false} PathBounded(c: Context, path: seq<State>)
    requires c.Valid() && IsPath(c, path)
    ensures StackBounded(c, path[|path| - 1])
    decreases |path|
  {
    hide Explore;
    var n := |path|;
    if n == 1 {
    } else {
      assert IsPath(c, path[..n - 1]);
      PathBounded(c, path[..n - 1]);
      assert Linked(c, path[n - 2], path[n - 1]);
      var e :| Leads(c, path[n - 2], e) && e.state == path[n - 1];
      EdgeKeepsStack(c, path[n - 2], e);
    }
  }

  lemma ReachableBounded(c: Context, s: State)
    requires c.Valid() && AllSafe(c) && Reachable(c, s)
    ensures Bounded(c, s)
  {
    hide Explore;
    var path :| IsPath(c, path) && path[|path| - 1] == s;
    PathBounded(c, path);
    SafeInRange(c, s);
  }

  function Rank(c: Context, s: State): int { Number(Digits(c, s), Base(c)) }

  /** Calls add a later return address, returns drop a position, everything else moves
      the program counter up. */
  lemma EdgeAdvances(c: Context, s: State, e: Successor)
    requires c.Valid() && Bounded(c, s) && Leads(c, s, e) && e.kind != LoopRepeat && Bounded(c, e.state)
    ensures Rank(c, s) < Rank(c, e.state)
  {
    var t := e.state;
    var d, f, k := Digits(c, s), Digits(c, t), |s.stack|;
    if |t.stack| < k {
      assert t.stack == s.stack[..|t.stack|] && t.pc == s.stack[|t.stack|];
    } else if |t.stack| == k {
      assert t.stack == s.stack && t.pc > s.pc;
    } else {
      assert t.stack == s.stack + [s.pc + 1];
    }
    assert d[..k] == f[..k] && d[k] < f[k];
    DigitsOfBounded(c, s);
    DigitsOfBounded(c, t);
    NumberGrows(d, f, Base(c), k);
  }

  lemma ForwardAdvances(c: Context, s: State, t: State)
    requires c.Valid() && AllSafe(c) && Reachable(c, s) && Forward(c, s, t)
    ensures Reachable(c, t) && 0 <= Rank(c, s) < Rank(c, t) < Power(Base(c), POSITIONS)
  {
    hide Explore, Reachable, Bounded, Digits, Number, Power, AllSafe;
    var e :| Leads(c, s, e) && e.kind != LoopRepeat && e.state == t;
    ReachableStep(c, s, e);
    ReachableBounded(c, s);
    ReachableBounded(c, t);
    EdgeAdvances(c, s, e);
    DigitsOfBounded(c, s);
    DigitsOfBounded(c, t);
    NumberBound(Digits(c, s), Base(c));
    NumberBound(Digits(c, t), Base(c));
  }

  // ---------------------------------------------------------------- Paths

  /** Loop-free paths are bounded: they climb in a finite order. */
  lemma {:induction false} PathClimbs(c: Context, path: seq<State>)
    requires c.Valid() && AllSafe(c) && ForwardPath(c, path) && Reachable(c, path[0])
    ensures var last := path[|path| - 1];
      Reachable(c, last) && |path| - 1 <= Rank(c, last) - Rank(c, path[0])
    decreases |path|
  {
    hide Explore, Reachable, Rank, Power, AllSafe;
    var n := |path|;
    if n == 1 {
    } else {
      PathClimbs(c, path[..n - 1]);
      ForwardAdvances(c, path[n - 2], path[n - 1]);
    }
  }

  lemma PathsAreShort(c: Context, path: seq<State>)
    requires c.Valid() && AllSafe(c) && ForwardPath(c, path) && Reachable(c, path[0])
    ensures |path| <= Power(Base(c), POSITIONS)
  {
    hide Explore, Reachable, Bounded, Digits, Number, Power, AllSafe;
    PathClimbs(c, path);
    ReachableBounded(c, path[0]);
    ReachableBounded(c, path[|path| - 1]);
    DigitsOfBounded(c, path[0]);
    DigitsOfBounded(c, path[|path| - 1]);
    NumberBound(Digits(c, path[0]), Base(c));
    NumberBound(Digits(c, path[|path| - 1]), Base(c));
  }

  /** The only states without a way forward are END and TRAP. */
  lemma StuckIsTerminal(c: Context, s: State)
    requires c.Valid() && Explore(c, s).Visit? && !Explore(c, s).terminal
    ensures exists t :: Forward(c, s, t)
  {
    var v := Explore(c, s);
    var e := v.successors[|v.successors| - 1];
    assert Leads(c, s, e) && e.kind != LoopRepeat;
    assert Forward(c, s, e.state);
  }

  /** A loop-free path from a reachable state that cannot go on has reached an END or a
      TRAP. */
  lemma MaximalPathsEnd(c: Context, path: seq<State>)
    requires c.Valid() && AllSafe(c) && ForwardPath(c, path) && Reachable(c, path[0])
    requires Stuck(c, path[|path| - 1])
    ensures var last := path[|path| - 1]; Explore(c, last).Visit? && Explore(c, last).terminal
  {
    hide Explore, Reachable, Forward;
    var last := path[|path| - 1];
    PathClimbs(c, path);
    if !Explore(c, last).terminal {
      StuckIsTerminal(c, last);
    }
  }

  /** Every loop-free path from a reachable state can be completed to an END or a TRAP. */
  lemma {:induction false} EveryPathEnds(c: Context, path: seq<State>) returns (whole: seq<State>)
    requires c.Valid() && AllSafe(c) && ForwardPath(c, path) && Reachable(c, path[0])
    ensures ForwardPath(c, whole) && path <= whole
    ensures var last := whole[|whole| - 1];
      Reachable(c, last) && Explore(c, last).Visit? && Explore(c, last).terminal
    decreases Power(Base(c), POSITIONS) - |path|
  {
    hide Explore, Reachable, Power;
    PathClimbs(c, path);
    var last := path[|path| - 1];
    if Explore(c, last).terminal {
      whole := path;
    } else {
      StuckIsTerminal(c, last);
      var t :| Forward(c, last, t);
      var longer := path + [t];
      assert ForwardPath(c, longer);
      PathsAreShort(c, longer);
      whole := EveryPathEnds(c, longer);
    }
  }

  /** From every reachable state a terminal is reachable without repeating a loop. */
  lemma TerminalAhead(c: Context, s: State) returns (path: seq<State>)
    requires c.Valid() && AllSafe(c) && Reachable(c, s)
    ensures ForwardPath(c, path) && path[0] == s
    ensures var last := path[|path| - 1];
      Reachable(c, last) && Explore(c, last).Visit? && Explore(c, last).terminal
  {
    hide Explore, Reachable, AllSafe;
    path := EveryPathEnds(c, [s]);
  }

  /** The verifier's test for a reachable END or TRAP never decides anything. */
  lemma TerminalTestRedundant(c: Context)
    requires c.Valid()
    ensures Accepts(c) <==>
      && WellPaired(c) && AllSafe(c)
      && exists states: set<State> :: CoversReachable(c, states) && |states| <= ProofLimit(c.abi)
  {
    hide Explore, Reachable, WellPaired;
    if AllSafe(c) {
      InitialReachable(c);
      var path := TerminalAhead(c, Initial(c));
      assert Reachable(c, path[|path| - 1]);
    }
  }
}

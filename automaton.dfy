/**
 * The classic one-dimensional cellular automaton (radius 1, periodic boundary)
 * and the rule-table arithmetic of its radius-k generalisation.
 *
 * A rule table has one entry per 3-cell neighbourhood; the neighbourhood of
 * cell i is the number `left*4 + center*2 + right` read from cells i-1, i, i+1
 * with the ends of the domain joined.
 */
module Automaton {
  import opened Periodic

  /** The rule-table index of a neighbourhood; always one of the 8 entries. */
  function Neighbourhood(left: bool, center: bool, right: bool): (v: nat)
    ensures v < 8
  {
    4 * Bit(left) + 2 * Bit(center) + Bit(right)
  }

  /** The index is a 3-bit code: each of the three cells can be read back from it. */
  lemma NeighbourhoodDecodes(left: bool, center: bool, right: bool)
    ensures Neighbourhood(left, center, right) / 4 == Bit(left)
    ensures Neighbourhood(left, center, right) / 2 % 2 == Bit(center)
    ensures Neighbourhood(left, center, right) % 2 == Bit(right)
  {
  }

  /** Every entry of the table is reached by exactly one neighbourhood. */
  lemma NeighbourhoodOnto(v: nat)
    requires v < 8
    ensures Neighbourhood(v / 4 == 1, v / 2 % 2 == 1, v % 2 == 1) == v
  {
  }

  /** The stored rule symbols read as booleans: a rule fires when its symbol is the "on" symbol. */
  function RuleBits(rules: seq<char>, onSymbol: char): (table: seq<bool>)
    ensures |table| == |rules|
  {
    seq(|rules|, i requires 0 <= i < |rules| => rules[i] == onSymbol)
  }

  /** Next value of cell i, read from the old domain d only, with wrap-around neighbours. */
  function NextCell(table: seq<bool>, d: seq<bool>, i: int): bool
    requires |table| == 8 && 0 <= i < |d|
  {
    var n := |d|;
    table[Neighbourhood(d[LeftOf(i, n)], d[i], d[RightOf(i, n)])]
  }

  /** The first `k` cells of the next generation, each read from the old domain d only. */
  function NextPrefix(table: seq<bool>, d: seq<bool>, k: nat): (e: seq<bool>)
    requires |table| == 8 && k <= |d|
    ensures |e| == k
  {
    if k == 0 then [] else NextPrefix(table, d, k - 1) + [NextCell(table, d, k - 1)]
  }

  /** One synchronous step: every new cell is a function of the old domain alone. */
  function NextDomain(table: seq<bool>, d: seq<bool>): (e: seq<bool>)
    requires |table| == 8
    ensures |e| == |d|
  {
    NextPrefix(table, d, |d|)
  }

  lemma {:induction false} NextPrefixCells(table: seq<bool>, d: seq<bool>, k: nat)
    requires |table| == 8 && k <= |d|
    ensures forall i :: 0 <= i < k ==> NextPrefix(table, d, k)[i] == NextCell(table, d, i)
  {
    if k > 0 {
      NextPrefixCells(table, d, k - 1);
    }
  }

  /** Cell i of the next generation is the rule applied to the wrapped neighbourhood of cell i. */
  lemma NextDomainCells(table: seq<bool>, d: seq<bool>)
    requires |table| == 8
    ensures forall i :: 0 <= i < |d| ==> NextDomain(table, d)[i] == NextCell(table, d, i)
  {
    NextPrefixCells(table, d, |d|);
  }

  /** A domain whose every cell is the rule applied to its old neighbourhood is the step. */
  lemma CellsMakeStep(table: seq<bool>, d: seq<bool>, c: seq<bool>)
    requires |table| == 8 && |c| == |d|
    requires forall k :: 0 <= k < |d| ==> c[k] == NextCell(table, d, k)
    ensures c == NextDomain(table, d)
  {
    NextDomainCells(table, d);
    var e := NextDomain(table, d);
    assert forall k :: 0 <= k < |d| ==> c[k] == e[k];
  }

  /** The three cases the step spells out (left end, interior, right end) are the wrap formula. */
  lemma {:induction false} StepBoundaryCases(table: seq<bool>, d: seq<bool>)
    requires |table| == 8 && |d| >= 2
    ensures var n := |d|; var e := NextDomain(table, d);
      && e[0] == table[Neighbourhood(d[n - 1], d[0], d[1])]
      && e[n - 1] == table[Neighbourhood(d[n - 2], d[n - 1], d[0])]
      && forall i :: 1 <= i < n - 1 ==> e[i] == table[Neighbourhood(d[i - 1], d[i], d[i + 1])]
  {
    NextDomainCells(table, d);
  }

  /** Rotating the domain commutes with a step: the ring has no distinguished cell. */
  function RotateLeft(d: seq<bool>): (r: seq<bool>)
    ensures |r| == |d|
  {
    if d == [] then [] else d[1..] + [d[0]]
  }

  /** Cell i of the rotated domain is cell i + 1 of the original, around the ring. */
  lemma RotateLeftCell(d: seq<bool>, i: int)
    requires 0 <= i < |d|
    ensures RotateLeft(d)[i] == d[RightOf(i, |d|)]
  {
  }

  /** A rotated cell sees the rotated neighbourhood, so it takes the value of its original. */
  lemma RotatedNextCell(table: seq<bool>, d: seq<bool>, i: int)
    requires |table| == 8 && 0 <= i < |d|
    ensures NextCell(table, RotateLeft(d), i) == NextCell(table, d, RightOf(i, |d|))
  {
    var n, r, j := |d|, RotateLeft(d), RightOf(i, |d|);
    RotateLeftCell(d, i);
    RotateLeftCell(d, LeftOf(i, n));
    RotateLeftCell(d, RightOf(i, n));
    assert RightOf(LeftOf(i, n), n) == i;
    assert r[LeftOf(i, n)] == d[LeftOf(j, n)];
  }

  lemma {:induction false} StepCommutesWithRotation(table: seq<bool>, d: seq<bool>)
    requires |table| == 8
    ensures NextDomain(table, RotateLeft(d)) == RotateLeft(NextDomain(table, d))
  {
    var n := |d|;
    var r := RotateLeft(d);
    var e := NextDomain(table, d);
    NextDomainCells(table, d);
    NextDomainCells(table, r);
    forall i | 0 <= i < n
      ensures NextDomain(table, r)[i] == RotateLeft(e)[i]
    {
      RotatedNextCell(table, d, i);
      RotateLeftCell(e, i);
    }
  }

  /** A domain is uniform when every cell holds the value of the first one. */
  predicate Uniform(d: seq<bool>)
  {
    forall i :: 0 <= i < |d| ==> d[i] == d[0]
  }

  /** Adjacent cells pairwise equal: the test the classification loop performs. */
  predicate AdjacentEqual(d: seq<bool>, upTo: int)
    requires upTo <= |d|
  {
    forall i :: 0 <= i < upTo - 1 ==> d[i] == d[i + 1]
  }

  /** Comparing every adjacent pair decides uniformity, in both directions. */
  lemma {:induction false} UniformIffAdjacentEqual(d: seq<bool>)
    ensures Uniform(d) <==> AdjacentEqual(d, |d|)
  {
    if AdjacentEqual(d, |d|) {
      forall i | 0 <= i < |d|
        ensures d[i] == d[0]
      {
        AdjacentPrefix(d, i);
      }
    }
  }

  lemma {:induction false} AdjacentPrefix(d: seq<bool>, i: nat)
    requires i < |d| && AdjacentEqual(d, |d|)
    ensures d[i] == d[0]
  {
    if i > 0 {
      AdjacentPrefix(d, i - 1);
    }
  }

  /** The `k`-fold step of `d`. */
  function Iterate(table: seq<bool>, d: seq<bool>, k: nat): (e: seq<bool>)
    requires |table| == 8
    ensures |e| == |d|
    decreases k
  {
    if k == 0 then d else Iterate(table, NextDomain(table, d), k - 1)
  }

  /** The trajectory `d, step(d), ..., step^n(d)`: generation 0 through n. */
  function Trajectory(table: seq<bool>, d: seq<bool>, n: nat): (t: seq<seq<bool>>)
    requires |table| == 8
    ensures |t| == n + 1 && t[0] == d
    decreases n
  {
    if n == 0 then [d] else [d] + Trajectory(table, NextDomain(table, d), n - 1)
  }

  /** A trajectory holds `n + 1` snapshots of the domain's length; snapshot k is the k-fold step,
      and each snapshot is one step after the previous one. */
  lemma {:induction false} TrajectoryShape(table: seq<bool>, d: seq<bool>, n: nat)
    requires |table| == 8
    ensures var t := Trajectory(table, d, n);
      && |t| == n + 1 && t[0] == d
      && (forall k :: 0 <= k <= n ==> t[k] == Iterate(table, d, k) && |t[k]| == |d|)
      && (forall k :: 0 <= k < n ==> t[k + 1] == NextDomain(table, t[k]))
    decreases n
  {
    if n > 0 {
      TrajectoryShape(table, NextDomain(table, d), n - 1);
    }
  }

  /** Extending a trajectory by one generation appends one step of its last snapshot. */
  lemma {:induction false} TrajectoryExtend(table: seq<bool>, d: seq<bool>, n: nat)
    requires |table| == 8
    ensures Trajectory(table, d, n + 1) == Trajectory(table, d, n) + [NextDomain(table, Iterate(table, d, n))]
    decreases n
  {
    if n > 0 {
      TrajectoryExtend(table, NextDomain(table, d), n - 1);
    }
  }

  /**
   * The majority outcome after at most `steps` steps: step, then stop as soon as the domain is
   * uniform and report its value (1 or 0); report -1 when the budget runs out first.
   */
  function MajorityOutcome(table: seq<bool>, d: seq<bool>, steps: int): (r: int)
    requires |table| == 8 && (|d| >= 1 || steps <= 0)
    ensures -1 <= r <= 1
    decreases steps
  {
    if steps <= 0 then -1
    else
      var e := NextDomain(table, d);
      if Uniform(e) then Bit(e[0])
      else MajorityOutcome(table, e, steps - 1)
  }

  /** A start that is already uniform is still stepped before it is tested, and with no budget
      it is reported as unsettled: an all-on start under the all-off table gives 0, not 1. */
  lemma UniformStartIsStepped(d: seq<bool>, steps: int)
    requires |d| >= 1 && forall i :: 0 <= i < |d| ==> d[i]
    ensures Uniform(d) && MajorityOutcome(seq(8, v => false), d, 0) == -1
    ensures steps >= 1 ==> MajorityOutcome(seq(8, v => false), d, steps) == 0
  {
    var table := seq(8, v => false);
    var e := NextDomain(table, d);
    NextDomainCells(table, d);
    assert forall i :: 0 <= i < |e| ==> !e[i];
    assert Uniform(e);
  }

  /** Non-convergence is reported exactly when none of generations 1..n is uniform. */
  lemma {:induction false} MajorityNonConvergence(table: seq<bool>, d: seq<bool>, n: nat)
    requires |table| == 8 && |d| >= 1
    ensures MajorityOutcome(table, d, n) == -1 ==> forall k :: 1 <= k <= n ==> !Uniform(Iterate(table, d, k))
    ensures (forall k :: 1 <= k <= n ==> !Uniform(Iterate(table, d, k))) ==> MajorityOutcome(table, d, n) == -1
    decreases n
  {
    if n > 0 {
      var e := NextDomain(table, d);
      MajorityNonConvergence(table, e, n - 1);
      assert forall k :: 1 <= k <= n ==> Iterate(table, d, k) == Iterate(table, e, k - 1);
      assert Iterate(table, e, 0) == e;
      if Uniform(e) {
        assert MajorityOutcome(table, d, n) == Bit(e[0]);
        assert MajorityOutcome(table, d, n) != -1;
        assert Uniform(Iterate(table, d, 1));
      } else {
        assert MajorityOutcome(table, d, n) == MajorityOutcome(table, e, n - 1);
        if forall k :: 1 <= k <= n - 1 ==> !Uniform(Iterate(table, e, k)) {
          forall k | 1 <= k <= n
            ensures !Uniform(Iterate(table, d, k))
          {
            assert Iterate(table, d, k) == Iterate(table, e, k - 1);
          }
        } else {
          var k :| 1 <= k <= n - 1 && Uniform(Iterate(table, e, k));
          assert Iterate(table, d, k + 1) == Iterate(table, e, k);
          assert Uniform(Iterate(table, d, k + 1));
          assert MajorityOutcome(table, e, n - 1) != -1;
        }
      }
    }
  }

  /** Generation k is the first uniform one among 1..n and the outcome reports its value. */
  predicate FirstUniformAt(table: seq<bool>, d: seq<bool>, n: nat, k: int)
    requires |table| == 8 && |d| >= 1
  {
    && 1 <= k <= n && Uniform(Iterate(table, d, k))
    && (forall j :: 1 <= j < k ==> !Uniform(Iterate(table, d, j)))
    && MajorityOutcome(table, d, n) == Bit(Iterate(table, d, k)[0])
  }

  /** On convergence the outcome is the value of the first uniform generation within the budget. */
  lemma {:induction false} MajorityFirstUniform(table: seq<bool>, d: seq<bool>, n: nat)
    requires |table| == 8 && |d| >= 1
    requires MajorityOutcome(table, d, n) != -1
    ensures exists k :: FirstUniformAt(table, d, n, k)
    decreases n
  {
    var e := NextDomain(table, d);
    assert forall k :: 1 <= k <= n ==> Iterate(table, d, k) == Iterate(table, e, k - 1);
    assert Iterate(table, d, 1) == e;
    if Uniform(e) {
      assert MajorityOutcome(table, d, n) == Bit(Iterate(table, d, 1)[0]);
      assert FirstUniformAt(table, d, n, 1);
    } else {
      assert MajorityOutcome(table, d, n) == MajorityOutcome(table, e, n - 1);
      MajorityFirstUniform(table, e, n - 1);
      forall k | 2 <= k && FirstUniformAt(table, e, n - 1, k - 1)
        ensures FirstUniformAt(table, d, n, k)
      {
        assert Iterate(table, d, k) == Iterate(table, e, k - 1);
        forall j | 1 <= j < k
          ensures !Uniform(Iterate(table, d, j))
        {
          assert Iterate(table, d, j) == Iterate(table, e, j - 1);
        }
      }
      var k :| FirstUniformAt(table, e, n - 1, k);
      assert FirstUniformAt(table, d, n, k + 1);
    }
  }

  /**
   * The return decision as the code writes it: `-1` only if not done AND steps remain.
   * Once the loop `while (!done && currStep < maxSteps)` has exited, that test is false.
   */
  function MajorityReturnAsWritten(done: bool, currStep: int, maxSteps: int, first: bool): int
  {
    if !done && currStep < maxSteps then -1 else Bit(first)
  }

  /** After the loop exits, the written decision never produces -1. */
  lemma MajorityAsWrittenNeverSignals(done: bool, currStep: int, maxSteps: int, first: bool)
    requires done || currStep >= maxSteps
    ensures MajorityReturnAsWritten(done, currStep, maxSteps, first) != -1
  {
  }

  /** The rule table in which every cell keeps its own value. */
  function IdentityTable(): (t: seq<bool>)
    ensures |t| == 8
  {
    [false, false, true, true, false, false, true, true]
  }

  /** Under the identity table every cell keeps its value, so a step changes nothing. */
  lemma IdentityKeepsDomain(d: seq<bool>)
    ensures NextDomain(IdentityTable(), d) == d
  {
    var t := IdentityTable();
    NextDomainCells(t, d);
    forall i | 0 <= i < |d|
      ensures NextDomain(t, d)[i] == d[i]
    {
      var n := |d|;
      var l, r := d[LeftOf(i, n)], d[RightOf(i, n)];
      assert NextCell(t, d, i) == t[4 * Bit(l) + 2 * Bit(d[i]) + Bit(r)];
    }
  }

  /** A domain that is not uniform never converges under the identity table. */
  lemma {:induction false} IdentityNeverConverges(d: seq<bool>, n: int)
    requires |d| >= 1 && !Uniform(d)
    ensures MajorityOutcome(IdentityTable(), d, n) == -1
    decreases n
  {
    if n > 0 {
      IdentityKeepsDomain(d);
      IdentityNeverConverges(d, n - 1);
    }
  }

  /** A domain that never becomes uniform: the intended outcome is -1, the written code reports 1. */
  lemma MajorityAsWrittenCounterexample(d: seq<bool>)
    requires d == [true, false]
    ensures MajorityOutcome(IdentityTable(), d, 1) == -1
    ensures MajorityReturnAsWritten(false, 1, 1, NextDomain(IdentityTable(), d)[0]) == 1
  {
    assert d[1] != d[0];
    IdentityNeverConverges(d, 1);
    IdentityKeepsDomain(d);
  }

  /** `CellularAutomata1D`: an 8-entry rule table stored as symbols. */
  class Automaton1D {
    const rules: array<char>
    /** The symbol that marks a rule as firing (the code's `CA_TRUE`). */
    const onSymbol: char

    ghost predicate Valid()
      reads this
    {
      rules.Length == 8
    }

    /** The rule table as booleans, one per neighbourhood. */
    function Table(): (t: seq<bool>)
      reads this, rules
      requires Valid()
      ensures |t| == 8 && forall v :: 0 <= v < 8 ==> t[v] == (rules[v] == onSymbol)
    {
      RuleBits(rules[..], onSymbol)
    }

    /** Copies the first 8 symbols of `initial` into the table. */
    constructor (initial: seq<char>, onSymbol: char)
      requires |initial| >= 8
      ensures Valid() && fresh(rules)
      ensures rules[..] == initial[..8] && this.onSymbol == onSymbol
    {
      this.onSymbol := onSymbol;
      rules := new char[8](i requires 0 <= i < 8 => initial[i]);
      new;
      assert rules[..] == initial[..8];
    }

    /** Replaces the whole table with the first 8 symbols of `newRules`. */
    method SetRules(newRules: seq<char>)
      requires Valid() && |newRules| >= 8
      modifies rules
      ensures rules[..] == newRules[..8]
      ensures Table() == RuleBits(newRules[..8], onSymbol)
    {
      var i := 0;
      while i < 8
        invariant 0 <= i <= 8
        invariant forall k :: 0 <= k < i ==> rules[k] == newRules[k]
      {
        rules[i] := newRules[i];
        i := i + 1;
      }
      assert rules[..] == newRules[..8];
    }

    /**
     * One synchronous step of the caller's domain: the new domain is computed into a
     * separate buffer from the unchanged old one, then written back through `curr`.
     * (The code instead reassigns its by-value pointer parameter, so the caller never
     * sees the result and its buffer is freed; this models the documented update.)
     */
    method Step(curr: array<bool>)
      requires Valid() && curr.Length >= 2
      modifies curr
      ensures curr[..] == NextDomain(Table(), old(curr[..]))
    {
      var next := NextBuffer(curr);
      ghost var e := next[..];
      // Replace the whole domain at once.
      forall k | 0 <= k < curr.Length {
        curr[k] := next[k];
      }
      ghost var c := curr[..];
      assert forall k :: 0 <= k < |c| ==> c[k] == e[k];
      assert c == e;
    }

    /** The rule for one neighbourhood: the stored symbol is compared with the "on" symbol. */
    method ApplyRule(left: bool, center: bool, right: bool) returns (b: bool)
      requires Valid()
      ensures b == Table()[Neighbourhood(left, center, right)]
    {
      var ruleVal := Neighbourhood(left, center, right);
      b := rules[ruleVal] == onSymbol;
    }

    /** The new domain computed into a separate buffer: left end, interior, right end. */
    method NextBuffer(curr: array<bool>) returns (next: array<bool>)
      requires Valid() && curr.Length >= 2
      ensures fresh(next)
      ensures next[..] == NextDomain(Table(), curr[..])
    {
      var n := curr.Length;
      next := new bool[n];
      // Left end: the left neighbour of cell 0 is cell n - 1.
      var left := ApplyRule(curr[n - 1], curr[0], curr[1]);
      // Interior cells.
      FillInterior(curr, next);
      // Right end: the right neighbour of cell n - 1 is cell 0.
      var right := ApplyRule(curr[n - 2], curr[n - 1], curr[0]);
      next[0] := left;
      next[n - 1] := right;
      CellsMakeStep(Table(), curr[..], next[..]);
    }

    /** The interior cells 1 .. n - 2 of the new domain, whose neighbours need no wrap-around. */
    method FillInterior(curr: array<bool>, next: array<bool>)
      requires Valid() && curr.Length >= 2 && next.Length == curr.Length
      requires next != curr
      modifies next
      ensures forall k :: 1 <= k < curr.Length - 1 ==> next[k] == NextCell(Table(), curr[..], k)
      ensures next[0] == old(next[0]) && next[curr.Length - 1] == old(next[curr.Length - 1])
    {
      var n := curr.Length;
      ghost var d := curr[..];
      ghost var table := Table();
      var i := 1;
      while i < n - 1
        invariant 1 <= i <= n - 1
        invariant forall k :: 1 <= k < i ==> next[k] == NextCell(table, d, k)
        invariant next[0] == old(next[0]) && next[n - 1] == old(next[n - 1])
      {
        next[i] := ApplyRule(curr[i - 1], curr[i], curr[i + 1]);
        i := i + 1;
      }
    }

    /** The `numSteps + 1` snapshots of the domain, generation 0 first. */
    method Simulate(start: seq<bool>, numSteps: nat) returns (output: seq<seq<bool>>)
      requires Valid() && (|start| >= 2 || numSteps == 0)
      ensures output == Trajectory(Table(), start, numSteps)
    {
      var buffer := new bool[|start|](i requires 0 <= i < |start| => start[i]);
      output := [buffer[..]];
      assert buffer[..] == start;
      var countSteps := 0;
      while countSteps < numSteps
        invariant 0 <= countSteps <= numSteps
        invariant buffer[..] == Iterate(Table(), start, countSteps)
        invariant output == Trajectory(Table(), start, countSteps)
      {
        Step(buffer);
        TrajectoryExtend(Table(), start, countSteps);
        IterateLast(Table(), start, countSteps);
        output := output + [buffer[..]];
        countSteps := countSteps + 1;
      }
    }

    /**
     * Attempts the majority classification of `start`: steps a local copy until it is
     * uniform or `maxSteps` steps are spent, and returns the uniform value or -1.
     * (The code never copies `start` into its local buffer and its `-1` test cannot
     * succeed after the loop; this models the documented behaviour.)
     */
    method Majority(start: seq<bool>, maxSteps: int) returns (r: int)
      requires Valid() && (|start| >= 2 || maxSteps <= 0)
      ensures r == MajorityOutcome(Table(), start, maxSteps)
    {
      var n := |start|;
      var curr := new bool[n](i requires 0 <= i < n => start[i]);
      assert curr[..] == start;
      var currStep := 0;
      var done := false;
      while !done && currStep < maxSteps
        invariant curr.Length == n
        invariant 0 <= currStep && (currStep <= maxSteps || maxSteps <= 0)
        invariant done ==> n >= 1 && MajorityOutcome(Table(), start, maxSteps) == Bit(curr[0])
        invariant !done ==> MajorityOutcome(Table(), start, maxSteps) == MajorityOutcome(Table(), curr[..], maxSteps - currStep)
        decreases maxSteps - currStep, if done then 0 else 1
      {
        ghost var before := curr[..];
        Step(curr);
        assert curr[..] == NextDomain(Table(), before);
        // Check whether the domain has settled into all on or all off.
        done := Settled(curr);
        currStep := currStep + 1;
      }
      if !done {
        r := -1;
      } else {
        r := Bit(curr[0]);
      }
    }

    /** Whether every cell equals its right neighbour, that is, the domain is uniform. */
    static method Settled(curr: array<bool>) returns (done: bool)
      requires curr.Length >= 1
      ensures done == Uniform(curr[..])
    {
      var n := curr.Length;
      done := true;
      var i := 0;
      while i < n - 1 && done
        invariant 0 <= i <= n - 1
        invariant done ==> AdjacentEqual(curr[..], i + 1)
        invariant !done ==> !AdjacentEqual(curr[..], n)
      {
        if curr[i] != curr[i + 1] {
          done := false;
        }
        i := i + 1;
      }
      UniformIffAdjacentEqual(curr[..]);
    }
  }

  /** The last snapshot of a trajectory of length n + 1 is the n-fold step. */
  lemma {:induction false} IterateLast(table: seq<bool>, d: seq<bool>, n: nat)
    requires |table| == 8
    ensures Iterate(table, d, n + 1) == NextDomain(table, Iterate(table, d, n))
    decreases n
  {
    if n > 0 {
      IterateLast(table, NextDomain(table, d), n - 1);
    }
  }

  /** `2^e`. */
  function Pow2(e: nat): (p: nat)
    ensures p >= 1
  {
    if e == 0 then 1 else 2 * Pow2(e - 1)
  }

  /**
   * The rule count of the radius-k automaton, computed as the default constructor of
   * `CellularAutomata1DGeneral` does: start at 2 and double `2k` times.
   */
  method RuleCount(neighborCount: int) returns (numRules: int)
    requires neighborCount >= 0
    ensures numRules == Pow2(2 * neighborCount + 1)
  {
    numRules := 2;
    var i := 0;
    while i < 2 * neighborCount
      invariant 0 <= i <= 2 * neighborCount
      invariant numRules == Pow2(i + 1)
    {
      numRules := numRules * 2;
      i := i + 1;
    }
  }

  /**
   * The radius-k neighbourhood value, scanning cells i+k down to i+k-t; the cell scanned
   * at position s contributes `2^s`.  The full value uses t = 2k.
   */
  function Window(d: seq<bool>, i: int, k: nat, t: nat): (v: nat)
    requires |d| >= 1
    ensures v < Pow2(t + 1)
  {
    var cell := Bit(d[Wrap(i + k - t, |d|)]) * Pow2(t);
    if t == 0 then cell else Window(d, i, k, t - 1) + cell
  }

  /** One step of the radius-k automaton with a table of `2^(2k+1)` entries. */
  function GeneralNextDomain(table: seq<bool>, d: seq<bool>, k: nat): (e: seq<bool>)
    requires |table| == Pow2(2 * k + 1)
    ensures |e| == |d|
  {
    seq(|d|, i requires 0 <= i < |d| => table[Window(d, i, k, 2 * k)])
  }

  /** With radius 1 the generalised automaton is the classic one, for the same table. */
  lemma {:induction false} GeneralRadiusOneIsClassic(table: seq<bool>, d: seq<bool>)
    requires |table| == 8
    ensures Pow2(2 * 1 + 1) == 8
    ensures GeneralNextDomain(table, d, 1) == NextDomain(table, d)
  {
    var n := |d|;
    NextDomainCells(table, d);
    forall i | 0 <= i < n
      ensures GeneralNextDomain(table, d, 1)[i] == NextDomain(table, d)[i]
    {
      WrapIdentity(i, n);
      WrapNeighbours(i, n);
      assert i + 1 - 1 == i && i + 1 - 2 == i - 1 && i + 1 - 0 == i + 1;
      assert Pow2(0) == 1 && Pow2(1) == 2 && Pow2(2) == 4;
      assert Window(d, i, 1, 0) == Bit(d[Wrap(i + 1, n)]);
      assert Window(d, i, 1, 1) == Bit(d[Wrap(i + 1, n)]) + 2 * Bit(d[i]);
      assert Window(d, i, 1, 2) == Neighbourhood(d[LeftOf(i, n)], d[i], d[RightOf(i, n)]);
    }
  }
}

/**
 * The fitness of a rule table for the majority problem: the automaton is run on a batch of
 * test strings, and each test scores +1 when the automaton settles on the string's true
 * majority, -1 when it does not settle within the step budget, and 0 when it settles on the
 * wrong value.  The score starts at the number of tests.
 *
 * The random test strings of the code are the `tests` input here.
 */
module MajoritySolver {
  import opened Periodic
  import opened Automaton

  /** The number of `true` cells. */
  function CountTrue(s: seq<bool>): (c: nat)
    ensures c <= |s|
  {
    if |s| == 0 then 0 else CountTrue(s[..|s| - 1]) + Bit(s[|s| - 1])
  }

  /** The expected answer for a test string: 1 when more than half of its cells are on
      (with the integer half `|s| / 2`), otherwise 0. */
  function ExpectedMajority(s: seq<bool>): int
  {
    if CountTrue(s) > |s| / 2 then 1 else 0
  }

  /** The expected answer is 1 exactly when the on cells are a strict majority; a tie counts as 0. */
  lemma ExpectedMajorityIsStrict(s: seq<bool>)
    ensures ExpectedMajority(s) == 1 ==> 2 * CountTrue(s) > |s|
    ensures 2 * CountTrue(s) > |s| ==> ExpectedMajority(s) == 1
    ensures ExpectedMajority(s) == 0 || ExpectedMajority(s) == 1
  {
  }

  /** The tests whose outcome is the expected majority. */
  function Correct(table: seq<bool>, tests: seq<seq<bool>>, maxSteps: int): (c: nat)
    requires |table| == 8 && forall i :: 0 <= i < |tests| ==> |tests[i]| >= 1
    ensures c <= |tests|
  {
    if |tests| == 0 then 0
    else
      var last := tests[|tests| - 1];
      Correct(table, tests[..|tests| - 1], maxSteps)
        + (if MajorityOutcome(table, last, maxSteps) == ExpectedMajority(last) then 1 else 0)
  }

  /** The tests on which the automaton did not settle within the budget. */
  function NonConverged(table: seq<bool>, tests: seq<seq<bool>>, maxSteps: int): (c: nat)
    requires |table| == 8 && forall i :: 0 <= i < |tests| ==> |tests[i]| >= 1
    ensures c <= |tests|
  {
    if |tests| == 0 then 0
    else
      var last := tests[|tests| - 1];
      NonConverged(table, tests[..|tests| - 1], maxSteps)
        + (if MajorityOutcome(table, last, maxSteps) < 0 then 1 else 0)
  }

  /** The fitness of a table: the number of tests, plus the correct ones, minus the unsettled ones. */
  function Score(table: seq<bool>, tests: seq<seq<bool>>, maxSteps: int): int
    requires |table| == 8 && forall i :: 0 <= i < |tests| ==> |tests[i]| >= 1
  {
    |tests| + Correct(table, tests, maxSteps) - NonConverged(table, tests, maxSteps)
  }

  /** Scoring one more test adds that test's outcome to both counts. */
  lemma CountsStep(table: seq<bool>, tests: seq<seq<bool>>, maxSteps: int, i: nat)
    requires |table| == 8 && forall k :: 0 <= k < |tests| ==> |tests[k]| >= 1
    requires i < |tests|
    ensures Correct(table, tests[..i + 1], maxSteps) == Correct(table, tests[..i], maxSteps)
      + (if MajorityOutcome(table, tests[i], maxSteps) == ExpectedMajority(tests[i]) then 1 else 0)
    ensures NonConverged(table, tests[..i + 1], maxSteps) == NonConverged(table, tests[..i], maxSteps)
      + (if MajorityOutcome(table, tests[i], maxSteps) < 0 then 1 else 0)
  {
    assert tests[..i + 1][..i] == tests[..i];
  }

  /** A test is never both correct and unsettled, so the two counts share the batch. */
  lemma {:induction false} CountsAreDisjoint(table: seq<bool>, tests: seq<seq<bool>>, maxSteps: int)
    requires |table| == 8 && forall i :: 0 <= i < |tests| ==> |tests[i]| >= 1
    ensures Correct(table, tests, maxSteps) + NonConverged(table, tests, maxSteps) <= |tests|
    decreases |tests|
  {
    if |tests| > 0 {
      var last := tests[|tests| - 1];
      CountsAreDisjoint(table, tests[..|tests| - 1], maxSteps);
      ExpectedMajorityIsStrict(last);
    }
  }

  /** The score lies in `[0, 2 * |tests|]`. */
  lemma ScoreBounds(table: seq<bool>, tests: seq<seq<bool>>, maxSteps: int)
    requires |table| == 8 && forall i :: 0 <= i < |tests| ==> |tests[i]| >= 1
    ensures 0 <= Score(table, tests, maxSteps) <= 2 * |tests|
  {
    CountsAreDisjoint(table, tests, maxSteps);
  }

  /** The top score is reached exactly when every test is classified correctly. */
  lemma {:induction false} PerfectScore(table: seq<bool>, tests: seq<seq<bool>>, maxSteps: int)
    requires |table| == 8 && forall i :: 0 <= i < |tests| ==> |tests[i]| >= 1
    ensures Score(table, tests, maxSteps) == 2 * |tests| ==>
      forall i :: 0 <= i < |tests| ==> MajorityOutcome(table, tests[i], maxSteps) == ExpectedMajority(tests[i])
    ensures (forall i :: 0 <= i < |tests| ==> MajorityOutcome(table, tests[i], maxSteps) == ExpectedMajority(tests[i])) ==>
      Score(table, tests, maxSteps) == 2 * |tests|
    decreases |tests|
  {
    if |tests| > 0 {
      var init := tests[..|tests| - 1];
      var last := tests[|tests| - 1];
      PerfectScore(table, init, maxSteps);
      CountsAreDisjoint(table, init, maxSteps);
      ExpectedMajorityIsStrict(last);
      assert forall i :: 0 <= i < |init| ==> init[i] == tests[i];
    }
  }

  /** A batch on which the automaton never settles scores 0. */
  lemma {:induction false} NothingSettlesScoresZero(table: seq<bool>, tests: seq<seq<bool>>, maxSteps: int)
    requires |table| == 8 && forall i :: 0 <= i < |tests| ==> |tests[i]| >= 1
    requires forall i :: 0 <= i < |tests| ==> MajorityOutcome(table, tests[i], maxSteps) == -1
    ensures Score(table, tests, maxSteps) == 0
    decreases |tests|
  {
    if |tests| > 0 {
      var init := tests[..|tests| - 1];
      assert forall i :: 0 <= i < |init| ==> init[i] == tests[i];
      NothingSettlesScoresZero(table, init, maxSteps);
      ExpectedMajorityIsStrict(tests[|tests| - 1]);
    }
  }

  /** `MajoritySolverGA`: the automaton it reconfigures and its test-batch settings. */
  class MajoritySolverGA {
    /** The automaton whose rule table is overwritten with the member being scored. */
    const currAutomata: Automaton1D
    const numFitnessTests: nat
    const domainSize: nat
    const maxSteps: int

    ghost predicate Valid()
      reads this, currAutomata
    {
      currAutomata.Valid() && domainSize >= 2
    }

    constructor (automaton: Automaton1D, numFitnessTests: nat, domainSize: nat, maxSteps: int)
      requires automaton.Valid() && domainSize >= 2
      ensures Valid() && currAutomata == automaton
      ensures this.numFitnessTests == numFitnessTests && this.domainSize == domainSize
      ensures this.maxSteps == maxSteps
    {
      currAutomata := automaton;
      this.numFitnessTests := numFitnessTests;
      this.domainSize := domainSize;
      this.maxSteps := maxSteps;
    }

    /**
     * Scores `member` (its first 8 symbols are the rule table) on the batch `tests`, which
     * stands for the random strings the code draws, one per fitness test.  The automaton is
     * left holding the member's rules.
     */
    method Fitness(member: seq<char>, tests: seq<seq<bool>>) returns (fitness: int)
      requires Valid() && |member| >= 8
      requires |tests| == numFitnessTests && forall i :: 0 <= i < |tests| ==> |tests[i]| == domainSize
      modifies currAutomata.rules
      ensures currAutomata.rules[..] == member[..8]
      ensures fitness == Score(RuleBits(member[..8], currAutomata.onSymbol), tests, maxSteps)
    {
      currAutomata.SetRules(member);
      ghost var table := currAutomata.Table();
      fitness := numFitnessTests;
      var i := 0;
      while i < numFitnessTests
        invariant 0 <= i <= numFitnessTests
        invariant currAutomata.Valid() && currAutomata.rules[..] == member[..8]
        invariant currAutomata.Table() == table
        invariant fitness == numFitnessTests + Correct(table, tests[..i], maxSteps) - NonConverged(table, tests[..i], maxSteps)
      {
        var start := tests[i];
        // Count the on cells of the test string.
        var total := CountOn(start, domainSize);
        var majority := if total > domainSize / 2 then 1 else 0;
        // Attempt to find the majority.
        var eval := currAutomata.Majority(start, maxSteps);
        if eval < 0 {
          fitness := fitness - 1;
        } else if eval == majority {
          fitness := fitness + 1;
        }
        CountsStep(table, tests, maxSteps, i);
        i := i + 1;
      }
      assert tests[..numFitnessTests] == tests;
    }

    /** The number of on cells among the first `n` cells of a test string. */
    static method CountOn(start: seq<bool>, n: nat) returns (total: nat)
      requires |start| == n
      ensures total == CountTrue(start)
    {
      total := 0;
      var j := 0;
      while j < n
        invariant 0 <= j <= n
        invariant total == CountTrue(start[..j])
      {
        if start[j] {
          total := total + 1;
        }
        assert start[..j + 1][..j] == start[..j];
        j := j + 1;
      }
      assert start[..n] == start;
    }
  }
}

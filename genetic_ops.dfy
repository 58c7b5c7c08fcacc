/**
 * The operators of the genetic algorithm as functions of their random draws: roulette
 * selection of parents, sorted crossover points, the offspring of two parents, and point
 * mutations.
 *
 * Every random number is an input here.  A raw integer draw is the uniform double in
 * `[0, 1)` scaled by INT32_MAX and truncated, so it lies in `[0, INT32_MAX)`; a fractional
 * draw is the uniform double itself.
 */
module GeneticOps {
  import opened Periodic

  /** INT32_MAX, the scale of a raw integer draw. */
  const Int32Max: int := 0x7FFF_FFFF

  /** A raw integer draw. */
  type RawDraw = r: nat | r < Int32Max

  /** The integer between `min` and `max`, both included, that a raw draw selects:
      the truncated remainder of the draw by the width of the range, shifted by `min`. */
  function GenRandInt(raw: RawDraw, min: int, max: int): (r: int)
    requires min <= max
    ensures min <= r <= max
  {
    CRem(raw, max - min + 1) + min
  }

  /** Both ends of the range can be drawn, `max` included. */
  lemma GenRandIntReachesEveryValue(v: int, min: int, max: int)
    requires min <= v <= max && v - min < Int32Max
    ensures GenRandInt(v - min, min, max) == v
  {
  }

  /** A draw for an index into `numActions` symbols with `max == numActions`, as the mutation
      step is written, can select `numActions` itself, one past the last symbol. */
  lemma InclusiveActionDraw(numActions: nat)
    requires numActions < Int32Max
    ensures GenRandInt(numActions, 0, numActions) == numActions
  {
  }

  // ---------------------------------------------------------------- roulette selection

  /** The sum of the fitness values. */
  function Sum(f: seq<real>): real
  {
    if |f| == 0 then 0.0 else Sum(f[..|f| - 1]) + f[|f| - 1]
  }

  predicate NonNegative(f: seq<real>)
  {
    forall i :: 0 <= i < |f| ==> f[i] >= 0.0
  }

  /** The fitness of members 0 to k together. */
  function Cumulative(f: seq<real>, k: int): real
    requires 0 <= k < |f|
  {
    Sum(f[..k + 1])
  }

  lemma {:induction false} SumNonNegative(f: seq<real>)
    requires NonNegative(f)
    ensures Sum(f) >= 0.0
  {
    if |f| > 0 {
      SumNonNegative(f[..|f| - 1]);
    }
  }

  lemma CumulativeFirst(f: seq<real>)
    requires |f| >= 1
    ensures Cumulative(f, 0) == f[0]
  {
    assert f[..1][..0] == [];
    assert Sum(f[..1]) == Sum(f[..1][..0]) + f[0];
  }

  lemma CumulativeStep(f: seq<real>, k: int)
    requires 0 <= k < |f| - 1
    ensures Cumulative(f, k + 1) == Cumulative(f, k) + f[k + 1]
  {
    assert f[..k + 2][..k + 1] == f[..k + 1];
  }

  lemma CumulativeLast(f: seq<real>)
    requires |f| >= 1
    ensures Cumulative(f, |f| - 1) == Sum(f)
  {
    assert f[..|f|] == f;
  }

  /** A roll the selection can serve: non-negative fitness, and the roll inside `[0, total)`,
      or 0 when the total itself is 0. */
  predicate ValidRoll(f: seq<real>, roll: real)
  {
    |f| >= 1 && NonNegative(f) && 0.0 <= roll && (roll < Sum(f) || roll == 0.0)
  }

  /** The roll `u * total` of a fraction u in `[0, 1)` is a valid roll. */
  lemma RollIsValid(f: seq<real>, u: real)
    requires |f| >= 1 && NonNegative(f) && 0.0 <= u < 1.0
    ensures ValidRoll(f, u * Sum(f))
  {
    SumNonNegative(f);
    var t := Sum(f);
    if t > 0.0 {
      assert t - u * t == (1.0 - u) * t;
      assert (1.0 - u) * t > 0.0;
    }
  }

  /** The member chosen for a fraction u in `[0, 1)`: the selection at the roll `u * total`. */
  function Pick(f: seq<real>, u: real): (k: int)
    requires |f| >= 1 && NonNegative(f) && 0.0 <= u < 1.0
    ensures 0 <= k < |f|
  {
    RollIsValid(f, u);
    Select(f, u * Sum(f))
  }

  /** Equal rolls select the same member. */
  lemma SameRoll(f: seq<real>, roll1: real, roll2: real)
    requires ValidRoll(f, roll1) && roll1 == roll2
    ensures ValidRoll(f, roll2) && Select(f, roll1) == Select(f, roll2)
  {
  }

  /** The first member from `k` on at which the cumulative fitness reaches the roll, or the
      last member. */
  function FirstReach(f: seq<real>, roll: real, k: int): (r: int)
    requires 0 <= k < |f|
    ensures k <= r < |f|
    ensures forall j :: k <= j < r ==> Cumulative(f, j) < roll
    ensures r == |f| - 1 || Cumulative(f, r) >= roll
    decreases |f| - k
  {
    if k == |f| - 1 || Cumulative(f, k) >= roll then k else FirstReach(f, roll, k + 1)
  }

  /** Roulette selection: the first member whose cumulative fitness reaches the roll, so that
      member i is chosen for rolls in a window of width `f[i]`. */
  function Select(f: seq<real>, roll: real): (k: int)
    requires ValidRoll(f, roll)
    ensures 0 <= k < |f| && Cumulative(f, k) >= roll
    ensures forall j :: 0 <= j < k ==> Cumulative(f, j) < roll
  {
    CumulativeLast(f);
    SumNonNegative(f);
    FirstReach(f, roll, 0)
  }

  /** A member with no fitness is chosen only by the roll 0. */
  lemma SelectSkipsZeroFitness(f: seq<real>, roll: real)
    requires ValidRoll(f, roll) && roll > 0.0
    ensures f[Select(f, roll)] > 0.0
  {
    var k := Select(f, roll);
    if k == 0 {
      CumulativeFirst(f);
    } else {
      CumulativeStep(f, k - 1);
    }
  }

  /** A larger roll never selects an earlier member. */
  lemma SelectMonotone(f: seq<real>, roll1: real, roll2: real)
    requires ValidRoll(f, roll1) && ValidRoll(f, roll2) && roll1 <= roll2
    ensures Select(f, roll1) <= Select(f, roll2)
  {
  }

  /** The selection walk as written: it starts from `f[0]` and then adds `f[index]` before
      moving on, so `f[0]` is counted twice and every later member one place late.  It stops at
      the last index it reached, which may be `|f|`. */
  function WalkAsWritten(f: seq<real>, roll: real, index: nat, curr: real): int
    decreases |f| - index
  {
    if curr >= roll then index
    else if index >= |f| then index
    else WalkAsWritten(f, roll, index + 1, curr + f[index])
  }

  function RouletteAsWritten(f: seq<real>, roll: real): int
    requires |f| >= 1
  {
    WalkAsWritten(f, roll, 0, f[0])
  }

  /** With fitness `[0, 1]` and roll 0.5, member 1 should be chosen; the walk as written ends
      at index 2, past the last member. */
  lemma RouletteAsWrittenOverruns(f: seq<real>, roll: real)
    requires f == [0.0, 1.0] && roll == 0.5
    ensures ValidRoll(f, roll) && Select(f, roll) == 1
    ensures RouletteAsWritten(f, roll) == 2 == |f|
  {
    CumulativeFirst(f);
    CumulativeStep(f, 0);
    CumulativeLast(f);
    assert WalkAsWritten(f, roll, 2, 1.0) == 2;
    assert WalkAsWritten(f, roll, 1, 0.0) == WalkAsWritten(f, roll, 2, 1.0);
    assert WalkAsWritten(f, roll, 0, 0.0) == WalkAsWritten(f, roll, 1, 0.0);
  }

  // ---------------------------------------------------------------- crossover points

  predicate Sorted(s: seq<int>)
  {
    forall i, j :: 0 <= i < j < |s| ==> s[i] <= s[j]
  }

  /** The crossover points drawn for a member of `sizeMembers` symbols, each in
      `[0, sizeMembers - 1]`. */
  function CutPoints(raws: seq<RawDraw>, sizeMembers: nat): (c: seq<int>)
    requires sizeMembers >= 1 || |raws| == 0
    ensures |c| == |raws|
    ensures forall k :: 0 <= k < |c| ==> 0 <= c[k] <= sizeMembers - 1
  {
    seq(|raws|, k requires 0 <= k < |raws| => GenRandInt(raws[k], 0, sizeMembers - 1))
  }

  /** `s` with `x` placed before the first element larger than it. */
  function Insert(s: seq<int>, x: int): (r: seq<int>)
    ensures |r| == |s| + 1
  {
    if |s| == 0 then [x]
    else if x < s[0] then [x] + s
    else [s[0]] + Insert(s[1..], x)
  }

  /** The points in the order the insertion passes leave them: each new point is inserted into
      the sorted points before it. */
  function InsertionSort(d: seq<int>): (r: seq<int>)
    ensures |r| == |d|
  {
    if |d| == 0 then [] else Insert(InsertionSort(d[..|d| - 1]), d[|d| - 1])
  }

  /** Inserting keeps every element and adds x. */
  lemma {:induction false} InsertPermutes(s: seq<int>, x: int)
    ensures multiset(Insert(s, x)) == multiset(s) + multiset{x}
    decreases |s|
  {
    if |s| > 0 && x >= s[0] {
      InsertPermutes(s[1..], x);
      assert s == [s[0]] + s[1..];
    }
  }

  /** Inserting into sorted points keeps them sorted. */
  lemma {:induction false} InsertKeepsSorted(s: seq<int>, x: int)
    requires Sorted(s)
    ensures Sorted(Insert(s, x))
    decreases |s|
  {
    if |s| > 0 {
      if x < s[0] {
        ConsSorted(x, s);
      } else {
        var t := s[1..];
        assert Sorted(t);
        InsertKeepsSorted(t, x);
        InsertPermutes(t, x);
        var rt := Insert(t, x);
        forall k | 0 <= k < |rt|
          ensures s[0] <= rt[k]
        {
          assert rt[k] in multiset(rt);
          assert rt[k] in multiset(t) + multiset{x};
          if rt[k] != x {
            var m :| 0 <= m < |t| && t[m] == rt[k];
            assert t[m] == s[m + 1];
          }
        }
        ConsSorted(s[0], rt);
      }
    }
  }

  /** A sorted sequence stays sorted with an element no larger than any of it in front. */
  lemma ConsSorted(a: int, t: seq<int>)
    requires Sorted(t) && forall k :: 0 <= k < |t| ==> a <= t[k]
    ensures Sorted([a] + t)
  {
    var r := [a] + t;
    forall i, j | 0 <= i < j < |r|
      ensures r[i] <= r[j]
    {
      if i > 0 {
        assert r[i] == t[i - 1];
      }
      assert r[j] == t[j - 1];
    }
  }

  /** Inserting an element no larger than any other puts it in front. */
  lemma {:induction false} InsertSmallest(t: seq<int>, y: int)
    requires forall k :: 0 <= k < |t| ==> y <= t[k]
    ensures Insert(t, y) == [y] + t
    decreases |t|
  {
    if |t| > 0 && y >= t[0] {
      InsertSmallest(t[1..], y);
      assert [t[0]] + ([y] + t[1..]) == [y] + t;
    }
  }

  /** The insertion passes sort the points and keep every point. */
  lemma {:induction false} InsertionSortSorts(d: seq<int>)
    ensures Sorted(InsertionSort(d))
    ensures multiset(InsertionSort(d)) == multiset(d)
    decreases |d|
  {
    if |d| > 0 {
      var init := d[..|d| - 1];
      InsertionSortSorts(init);
      InsertKeepsSorted(InsertionSort(init), d[|d| - 1]);
      InsertPermutes(InsertionSort(init), d[|d| - 1]);
      assert d == init + [d[|d| - 1]];
    }
  }

  /** The sorted points still lie in `[0, sizeMembers - 1]`. */
  lemma SortedCutsInRange(raws: seq<RawDraw>, sizeMembers: nat)
    requires sizeMembers >= 1 || |raws| == 0
    ensures forall k :: 0 <= k < |raws| ==> 0 <= InsertionSort(CutPoints(raws, sizeMembers))[k] <= sizeMembers - 1
  {
    var c := CutPoints(raws, sizeMembers);
    var s := InsertionSort(c);
    InsertionSortSorts(c);
    forall k | 0 <= k < |raws|
      ensures 0 <= s[k] <= sizeMembers - 1
    {
      assert s[k] in multiset(s);
      assert s[k] in multiset(c);
      var m :| 0 <= m < |c| && c[m] == s[k];
    }
  }

  // ---------------------------------------------------------------- offspring

  /** The number of points at or before position `p`. */
  function CountAtMost(cuts: seq<int>, p: int): (n: nat)
    ensures n <= |cuts|
  {
    if |cuts| == 0 then 0 else (if cuts[0] <= p then 1 else 0) + CountAtMost(cuts[1..], p)
  }

  /** The offspring copies the first parent up to the first point, the second up to the next,
      and so on: position p comes from the first parent exactly when an even number of points
      lie at or before p. */
  function Offspring(parent1: seq<char>, parent2: seq<char>, cuts: seq<int>): (child: seq<char>)
    requires |parent1| == |parent2|
    ensures |child| == |parent1|
  {
    seq(|parent1|, p requires 0 <= p < |parent1| =>
      if CountAtMost(cuts, p) % 2 == 0 then parent1[p] else parent2[p])
  }

  /** Every symbol stays in its position: it comes from one parent or the other. */
  lemma OffspringKeepsPositions(parent1: seq<char>, parent2: seq<char>, cuts: seq<int>)
    requires |parent1| == |parent2|
    ensures forall p :: 0 <= p < |parent1| ==>
      Offspring(parent1, parent2, cuts)[p] == parent1[p] || Offspring(parent1, parent2, cuts)[p] == parent2[p]
  {
  }

  /** With no points the offspring is the first parent. */
  lemma OffspringWithoutCuts(parent1: seq<char>, parent2: seq<char>)
    requires |parent1| == |parent2|
    ensures Offspring(parent1, parent2, []) == parent1
  {
  }

  /** With one point c the offspring is the classic one-point crossover. */
  lemma OnePointCrossover(parent1: seq<char>, parent2: seq<char>, c: int)
    requires |parent1| == |parent2| && 0 <= c <= |parent1|
    ensures Offspring(parent1, parent2, [c]) == parent1[..c] + parent2[c..]
  {
    var child := Offspring(parent1, parent2, [c]);
    forall p | 0 <= p < |parent1|
      ensures child[p] == (parent1[..c] + parent2[c..])[p]
    {
      assert CountAtMost([c], p) == (if c <= p then 1 else 0) + CountAtMost([c][1..], p);
    }
  }

  /** In sorted points, when the first j are at or before p and the rest after it, exactly j
      points lie at or before p. */
  lemma {:induction false} CountAtMostSplit(cuts: seq<int>, p: int, j: int)
    requires 0 <= j <= |cuts|
    requires forall k :: 0 <= k < j ==> cuts[k] <= p
    requires forall k :: j <= k < |cuts| ==> p < cuts[k]
    ensures CountAtMost(cuts, p) == j
    decreases |cuts|
  {
    if |cuts| > 0 {
      CountAtMostSplit(cuts[1..], p, if j == 0 then 0 else j - 1);
    }
  }

  // ---------------------------------------------------------------- the copy index as written

  /** The positions one copy loop writes: from `index` up to, not including, `bound`. */
  function CopyBelow(index: nat, bound: int): (written: seq<nat>)
    ensures |written| == if index < bound then bound - index else 0
    decreases bound - index
  {
    if index < bound then [index] + CopyBelow(index + 1, bound) else []
  }

  /** The copy index once a copy loop is done: it only moves forward. */
  function Past(index: nat, bound: int): nat
  {
    if index < bound then bound else index
  }

  /** The positions the crossover loops write for one offspring when the copy index enters at
      `index`: a loop up to each point, then one up to `sizeMembers`. */
  function CopiedAsWritten(index: nat, cuts: seq<int>, sizeMembers: nat): (written: seq<nat>)
    decreases |cuts|
  {
    if |cuts| == 0 then CopyBelow(index, sizeMembers)
    else CopyBelow(index, cuts[0]) + CopiedAsWritten(Past(index, cuts[0]), cuts[1..], sizeMembers)
  }

  /** The copy index after the crossover loops of one offspring. */
  function ExitAsWritten(index: nat, cuts: seq<int>, sizeMembers: nat): nat
    decreases |cuts|
  {
    if |cuts| == 0 then Past(index, sizeMembers)
    else ExitAsWritten(Past(index, cuts[0]), cuts[1..], sizeMembers)
  }

  /** The positions written for each offspring in turn when the copy index is shared by all of
      them and never reset: offspring i starts where offspring i - 1 stopped. */
  function BreedCopiesAsWritten(index: nat, cuts: seq<seq<int>>, sizeMembers: nat): (written: seq<seq<nat>>)
    ensures |written| == |cuts|
    decreases |cuts|
  {
    if |cuts| == 0 then []
    else
      var exit := ExitAsWritten(index, cuts[0], sizeMembers);
      [CopiedAsWritten(index, cuts[0], sizeMembers)] + BreedCopiesAsWritten(exit, cuts[1..], sizeMembers)
  }

  /** The positions from `index` up to `sizeMembers`, in order. */
  function Span(index: nat, sizeMembers: nat): seq<nat>
  {
    seq(if index < sizeMembers then sizeMembers - index else 0, k => index + k)
  }

  lemma {:induction false} CopyBelowIsSpan(index: nat, bound: nat)
    ensures CopyBelow(index, bound) == Span(index, bound)
    decreases bound - index
  {
    if index < bound {
      CopyBelowIsSpan(index + 1, bound);
    }
  }

  /** With every point in `[0, sizeMembers]`, the loops of one offspring write each position from
      `index` to `sizeMembers` once, in order, and leave the index at `sizeMembers` or beyond. */
  lemma {:induction false} CopiedAsWrittenIsSpan(index: nat, cuts: seq<int>, sizeMembers: nat)
    requires forall k :: 0 <= k < |cuts| ==> 0 <= cuts[k] <= sizeMembers
    ensures CopiedAsWritten(index, cuts, sizeMembers) == Span(index, sizeMembers)
    ensures ExitAsWritten(index, cuts, sizeMembers) == Past(index, sizeMembers)
    decreases |cuts|
  {
    if |cuts| == 0 {
      CopyBelowIsSpan(index, sizeMembers);
    } else {
      var c := cuts[0];
      var next := Past(index, c);
      CopyBelowIsSpan(index, c);
      CopiedAsWrittenIsSpan(next, cuts[1..], sizeMembers);
      assert Span(index, c) + Span(next, sizeMembers) == Span(index, sizeMembers);
    }
  }

  /** With the shared index entering the first offspring at 0 (the most favourable value of an
      uninitialised variable), the first offspring is written in full and every later one is
      not written at all. */
  lemma {:induction false} LaterOffspringUnwritten(cuts: seq<seq<int>>, sizeMembers: nat)
    requires |cuts| >= 1
    requires forall i, k :: 0 <= i < |cuts| && 0 <= k < |cuts[i]| ==> 0 <= cuts[i][k] <= sizeMembers
    ensures BreedCopiesAsWritten(0, cuts, sizeMembers)[0] == Span(0, sizeMembers)
    ensures forall i :: 1 <= i < |cuts| ==> BreedCopiesAsWritten(0, cuts, sizeMembers)[i] == []
  {
    CopiedAsWrittenIsSpan(0, cuts[0], sizeMembers);
    NothingLeftToCopy(sizeMembers, cuts[1..], sizeMembers);
  }

  /** Once the shared index has reached `sizeMembers`, no offspring gets any position. */
  lemma {:induction false} NothingLeftToCopy(index: nat, cuts: seq<seq<int>>, sizeMembers: nat)
    requires index >= sizeMembers
    requires forall i, k :: 0 <= i < |cuts| && 0 <= k < |cuts[i]| ==> 0 <= cuts[i][k] <= sizeMembers
    ensures forall i :: 0 <= i < |cuts| ==> BreedCopiesAsWritten(index, cuts, sizeMembers)[i] == []
    decreases |cuts|
  {
    if |cuts| > 0 {
      CopiedAsWrittenIsSpan(index, cuts[0], sizeMembers);
      NothingLeftToCopy(ExitAsWritten(index, cuts[0], sizeMembers), cuts[1..], sizeMembers);
    }
  }

  /** Two offspring of two-symbol members with no crossover: the first gets positions 0 and 1,
      the second nothing, where each should get both. */
  lemma SecondOffspringUnwritten()
    ensures BreedCopiesAsWritten(0, [[], []], 2) == [[0, 1], []]
  {
    var w := BreedCopiesAsWritten(0, [[], []], 2);
    LaterOffspringUnwritten([[], []], 2);
    assert Span(0, 2) == [0, 1];
    assert w[0] == [0, 1] && w[1] == [];
  }

  // ---------------------------------------------------------------- mutation

  /** One point mutation: a raw draw for the position and one for the symbol. */
  datatype Mutation = Mutation(rawIndex: RawDraw, rawAction: RawDraw)

  /** The position a mutation rewrites, in `[0, sizeMembers - 1]`. */
  function MutationIndex(m: Mutation, sizeMembers: nat): int
    requires sizeMembers >= 1
  {
    GenRandInt(m.rawIndex, 0, sizeMembers - 1)
  }

  /** The symbol a mutation writes: one of the actions, drawn from `[0, |actions| - 1]`. */
  function MutationAction(m: Mutation, actions: seq<char>): char
    requires |actions| >= 1
  {
    actions[GenRandInt(m.rawAction, 0, |actions| - 1)]
  }

  /** The number of mutations of one member: the truncation of `u * rate * sizeMembers` for a
      fraction u in `[0, 1)`, so 0, or below `rate * sizeMembers`. */
  predicate MutationCountAllowed(count: nat, mutationRate: real, sizeMembers: nat)
  {
    count == 0 || (count as real) < mutationRate * (sizeMembers as real)
  }

  /** A mutation list that can be applied: mutations need a position and a symbol. */
  predicate Applicable(member: seq<char>, ms: seq<Mutation>, actions: seq<char>)
  {
    |ms| == 0 || (|member| >= 1 && |actions| >= 1)
  }

  /** The member after its mutations, applied in order. */
  function ApplyMutations(member: seq<char>, ms: seq<Mutation>, actions: seq<char>): (r: seq<char>)
    requires Applicable(member, ms, actions)
    ensures |r| == |member|
  {
    if |ms| == 0 then member
    else
      var m := ms[|ms| - 1];
      ApplyMutations(member, ms[..|ms| - 1], actions)[MutationIndex(m, |member|) := MutationAction(m, actions)]
  }

  /** The positions the mutations rewrite. */
  function Targets(ms: seq<Mutation>, sizeMembers: nat): set<int>
    requires |ms| == 0 || sizeMembers >= 1
  {
    if |ms| == 0 then {} else Targets(ms[..|ms| - 1], sizeMembers) + {MutationIndex(ms[|ms| - 1], sizeMembers)}
  }

  /** Mutations rewrite at most one position each, write only actions there, and leave every
      other position as it was. */
  lemma {:induction false} MutationsTouchOnlyTargets(member: seq<char>, ms: seq<Mutation>, actions: seq<char>)
    requires Applicable(member, ms, actions)
    ensures |Targets(ms, |member|)| <= |ms|
    ensures forall p :: p in Targets(ms, |member|) ==> 0 <= p < |member| && ApplyMutations(member, ms, actions)[p] in actions
    ensures forall p :: 0 <= p < |member| && p !in Targets(ms, |member|) ==> ApplyMutations(member, ms, actions)[p] == member[p]
    decreases |ms|
  {
    if |ms| > 0 {
      MutationsTouchOnlyTargets(member, ms[..|ms| - 1], actions);
    }
  }

  /** A member over the actions stays over the actions. */
  lemma {:induction false} MutationsKeepAlphabet(member: seq<char>, ms: seq<Mutation>, actions: seq<char>)
    requires Applicable(member, ms, actions)
    requires forall p :: 0 <= p < |member| ==> member[p] in actions
    ensures forall p :: 0 <= p < |member| ==> ApplyMutations(member, ms, actions)[p] in actions
    decreases |ms|
  {
    if |ms| > 0 {
      MutationsKeepAlphabet(member, ms[..|ms| - 1], actions);
    }
  }

  /** A mutation rate of 0 allows no mutation, so the member is unchanged. */
  lemma ZeroRateMutatesNothing(member: seq<char>, ms: seq<Mutation>, actions: seq<char>)
    requires MutationCountAllowed(|ms|, 0.0, |member|)
    ensures Applicable(member, ms, actions) && ApplyMutations(member, ms, actions) == member
  {
  }

  /** An allowed count is at most the whole part of `rate * sizeMembers`. */
  lemma MutationCountBound(count: nat, mutationRate: real, sizeMembers: nat)
    requires MutationCountAllowed(count, mutationRate, sizeMembers)
    ensures count == 0 || count <= (mutationRate * (sizeMembers as real)).Floor
  {
    if count != 0 {
      FloorBound(count, mutationRate * (sizeMembers as real));
    }
  }

  lemma FloorBound(n: int, y: real)
    requires (n as real) < y
    ensures n <= y.Floor
  {
  }
}

/**
 * The genetic-algorithm engine: a population of members, each a string of `sizeMembers`
 * symbols drawn from `actions`, bred by roulette selection and multi-point crossover and then
 * point-mutated, generation after generation.
 *
 * The fitness oracle is a parameter (`fitness`), a function of a member's symbols; the random
 * draws of each generation are parameters too (see GeneticOps).
 */
module Genetic {
  import opened GeneticOps

  /** Every member has `sizeMembers` symbols, and there are `n` of them. */
  predicate Shaped(pop: seq<seq<char>>, n: nat, sizeMembers: nat)
  {
    |pop| == n && forall i :: 0 <= i < |pop| ==> |pop[i]| == sizeMembers
  }

  /** Every symbol of every member is one of the actions. */
  predicate OverAlphabet(pop: seq<seq<char>>, actions: seq<char>)
  {
    forall i, p :: 0 <= i < |pop| && 0 <= p < |pop[i]| ==> pop[i][p] in actions
  }

  ghost predicate FitnessNonNegative(fitness: seq<char> -> real)
  {
    forall m :: fitness(m) >= 0.0
  }

  /** The fitness of each member, in population order. */
  function Scores(pop: seq<seq<char>>, fitness: seq<char> -> real): (f: seq<real>)
    ensures |f| == |pop|
  {
    seq(|pop|, i requires 0 <= i < |pop| => fitness(pop[i]))
  }

  lemma ScoresNonNegative(pop: seq<seq<char>>, fitness: seq<char> -> real)
    requires FitnessNonNegative(fitness)
    ensures NonNegative(Scores(pop, fitness))
  {
  }

  /** The settings a generation depends on. */
  datatype Config = Config(sizeMembers: nat, actions: seq<char>, crossovers: nat, mutationRate: real)

  /** Crossover points need a member to cut. */
  predicate ConfigOk(c: Config)
  {
    c.crossovers == 0 || c.sizeMembers >= 1
  }

  /** The draws for one offspring: a fraction for each parent's roll and a raw draw per
      crossover point. */
  datatype Pairing = Pairing(u1: real, u2: real, cuts: seq<RawDraw>)

  predicate ValidPairing(d: Pairing, crossovers: nat)
  {
    0.0 <= d.u1 < 1.0 && 0.0 <= d.u2 < 1.0 && |d.cuts| == crossovers
  }

  /** The draws of one generation: a pairing per offspring and a list of mutations per member. */
  datatype GenerationDraws = GenerationDraws(pairings: seq<Pairing>, mutations: seq<seq<Mutation>>)

  predicate ValidMutations(mutations: seq<seq<Mutation>>, n: nat, c: Config)
  {
    |mutations| == n
    && forall i :: 0 <= i < n ==>
         MutationCountAllowed(|mutations[i]|, c.mutationRate, c.sizeMembers)
         && (|mutations[i]| == 0 || |c.actions| >= 1)
  }

  predicate ValidGeneration(g: GenerationDraws, n: nat, c: Config)
  {
    |g.pairings| == n && (forall i :: 0 <= i < n ==> ValidPairing(g.pairings[i], c.crossovers))
    && ValidMutations(g.mutations, n, c)
  }

  /** The offspring of one pairing: two parents chosen by roulette on rolls `u * total`, crossed
      at the sorted points. */
  function Child(pop: seq<seq<char>>, f: seq<real>, d: Pairing, c: Config): (child: seq<char>)
    requires |pop| >= 1 && Shaped(pop, |pop|, c.sizeMembers) && |f| == |pop| && NonNegative(f)
    requires ValidPairing(d, c.crossovers) && ConfigOk(c)
    ensures |child| == c.sizeMembers
  {
    Offspring(pop[Pick(f, d.u1)], pop[Pick(f, d.u2)],
              InsertionSort(CutPoints(d.cuts, c.sizeMembers)))
  }

  /** The new population: one offspring per pairing, replacing the old population. */
  function Bred(pop: seq<seq<char>>, f: seq<real>, ds: seq<Pairing>, c: Config): (next: seq<seq<char>>)
    requires Shaped(pop, |pop|, c.sizeMembers) && |f| == |pop| && NonNegative(f) && ConfigOk(c)
    requires |ds| == |pop| && forall i :: 0 <= i < |ds| ==> ValidPairing(ds[i], c.crossovers)
    ensures Shaped(next, |pop|, c.sizeMembers)
  {
    seq(|pop|, i requires 0 <= i < |pop| => Child(pop, f, ds[i], c))
  }

  /** The population after each member's mutations. */
  function Mutated(pop: seq<seq<char>>, mutations: seq<seq<Mutation>>, c: Config): (next: seq<seq<char>>)
    requires Shaped(pop, |pop|, c.sizeMembers) && ValidMutations(mutations, |pop|, c)
    ensures Shaped(next, |pop|, c.sizeMembers)
  {
    seq(|pop|, i requires 0 <= i < |pop| => ApplyMutations(pop[i], mutations[i], c.actions))
  }

  /** One generation: evaluate, breed, mutate. */
  function Generation(pop: seq<seq<char>>, fitness: seq<char> -> real, g: GenerationDraws, c: Config): (next: seq<seq<char>>)
    requires Shaped(pop, |pop|, c.sizeMembers) && FitnessNonNegative(fitness) && ConfigOk(c)
    requires ValidGeneration(g, |pop|, c)
    ensures Shaped(next, |pop|, c.sizeMembers)
  {
    ScoresNonNegative(pop, fitness);
    Mutated(Bred(pop, Scores(pop, fitness), g.pairings, c), g.mutations, c)
  }

  /** The population after the given generations, in order. */
  function Run(pop: seq<seq<char>>, fitness: seq<char> -> real, gens: seq<GenerationDraws>, c: Config): (final: seq<seq<char>>)
    requires Shaped(pop, |pop|, c.sizeMembers) && FitnessNonNegative(fitness) && ConfigOk(c)
    requires forall k :: 0 <= k < |gens| ==> ValidGeneration(gens[k], |pop|, c)
    ensures Shaped(final, |pop|, c.sizeMembers)
  {
    if |gens| == 0 then pop
    else Generation(Run(pop, fitness, gens[..|gens| - 1], c), fitness, gens[|gens| - 1], c)
  }

  /** An offspring takes each symbol from one of its parents at the same position, so it is
      over the actions when the population is. */
  lemma ChildKeepsAlphabet(pop: seq<seq<char>>, f: seq<real>, d: Pairing, c: Config)
    requires |pop| >= 1 && Shaped(pop, |pop|, c.sizeMembers) && |f| == |pop| && NonNegative(f)
    requires ValidPairing(d, c.crossovers) && ConfigOk(c)
    requires OverAlphabet(pop, c.actions)
    ensures forall p :: 0 <= p < c.sizeMembers ==> Child(pop, f, d, c)[p] in c.actions
  {
    var p1, p2 := Pick(f, d.u1), Pick(f, d.u2);
    OffspringKeepsPositions(pop[p1], pop[p2], InsertionSort(CutPoints(d.cuts, c.sizeMembers)));
  }

  /** Breeding only moves symbols between members at the same position, so a population over
      the actions stays over the actions. */
  lemma BredKeepsAlphabet(pop: seq<seq<char>>, f: seq<real>, ds: seq<Pairing>, c: Config)
    requires Shaped(pop, |pop|, c.sizeMembers) && |f| == |pop| && NonNegative(f) && ConfigOk(c)
    requires |ds| == |pop| && forall i :: 0 <= i < |ds| ==> ValidPairing(ds[i], c.crossovers)
    requires OverAlphabet(pop, c.actions)
    ensures OverAlphabet(Bred(pop, f, ds, c), c.actions)
  {
    var next := Bred(pop, f, ds, c);
    forall i | 0 <= i < |next|
      ensures forall p :: 0 <= p < |next[i]| ==> next[i][p] in c.actions
    {
      ChildKeepsAlphabet(pop, f, ds[i], c);
    }
  }

  lemma MutatedKeepsAlphabet(pop: seq<seq<char>>, mutations: seq<seq<Mutation>>, c: Config)
    requires Shaped(pop, |pop|, c.sizeMembers) && ValidMutations(mutations, |pop|, c)
    requires OverAlphabet(pop, c.actions)
    ensures OverAlphabet(Mutated(pop, mutations, c), c.actions)
  {
    forall i | 0 <= i < |pop|
      ensures forall p :: 0 <= p < |pop[i]| ==> ApplyMutations(pop[i], mutations[i], c.actions)[p] in c.actions
    {
      MutationsKeepAlphabet(pop[i], mutations[i], c.actions);
    }
  }

  /** Every generation keeps every symbol among the actions. */
  lemma {:induction false} RunKeepsAlphabet(pop: seq<seq<char>>, fitness: seq<char> -> real, gens: seq<GenerationDraws>, c: Config)
    requires Shaped(pop, |pop|, c.sizeMembers) && FitnessNonNegative(fitness) && ConfigOk(c)
    requires forall k :: 0 <= k < |gens| ==> ValidGeneration(gens[k], |pop|, c)
    requires OverAlphabet(pop, c.actions)
    ensures OverAlphabet(Run(pop, fitness, gens, c), c.actions)
    decreases |gens|
  {
    if |gens| > 0 {
      var prev := Run(pop, fitness, gens[..|gens| - 1], c);
      RunKeepsAlphabet(pop, fitness, gens[..|gens| - 1], c);
      var g := gens[|gens| - 1];
      ScoresNonNegative(prev, fitness);
      BredKeepsAlphabet(prev, Scores(prev, fitness), g.pairings, c);
      MutatedKeepsAlphabet(Bred(prev, Scores(prev, fitness), g.pairings, c), g.mutations, c);
    }
  }

  /** The generations up to n + 1 are those up to n followed by generation n. */
  lemma RunStep(pop: seq<seq<char>>, fitness: seq<char> -> real, gens: seq<GenerationDraws>, c: Config, n: int)
    requires Shaped(pop, |pop|, c.sizeMembers) && FitnessNonNegative(fitness) && ConfigOk(c)
    requires forall k :: 0 <= k < |gens| ==> ValidGeneration(gens[k], |pop|, c)
    requires 0 <= n < |gens|
    ensures Run(pop, fitness, gens[..n + 1], c) == Generation(Run(pop, fitness, gens[..n], c), fitness, gens[n], c)
  {
    assert gens[..n + 1][..n] == gens[..n];
  }

  /** With a mutation rate of 0 a generation is pure breeding. */
  lemma ZeroRateGenerationOnlyBreeds(pop: seq<seq<char>>, fitness: seq<char> -> real, g: GenerationDraws, c: Config)
    requires Shaped(pop, |pop|, c.sizeMembers) && FitnessNonNegative(fitness) && ConfigOk(c)
    requires ValidGeneration(g, |pop|, c) && c.mutationRate == 0.0
    ensures NonNegative(Scores(pop, fitness))
    ensures Generation(pop, fitness, g, c) == Bred(pop, Scores(pop, fitness), g.pairings, c)
  {
    ScoresNonNegative(pop, fitness);
    var bred := Bred(pop, Scores(pop, fitness), g.pairings, c);
    forall i | 0 <= i < |pop|
      ensures ApplyMutations(bred[i], g.mutations[i], c.actions) == bred[i]
    {
      ZeroRateMutatesNothing(bred[i], g.mutations[i], c.actions);
    }
  }

  /** Without crossover points every offspring is a copy of its first parent. */
  lemma NoCrossoverCopiesFirstParent(pop: seq<seq<char>>, f: seq<real>, ds: seq<Pairing>, c: Config, i: int)
    requires Shaped(pop, |pop|, c.sizeMembers) && |f| == |pop| && NonNegative(f) && ConfigOk(c)
    requires |ds| == |pop| && forall k :: 0 <= k < |ds| ==> ValidPairing(ds[k], c.crossovers)
    requires c.crossovers == 0 && 0 <= i < |pop|
    ensures Bred(pop, f, ds, c)[i] == pop[Pick(f, ds[i].u1)]
  {
    var d := ds[i];
    assert InsertionSort(CutPoints(d.cuts, c.sizeMembers)) == [];
    var p1, p2 := pop[Pick(f, d.u1)], pop[Pick(f, d.u2)];
    OffspringWithoutCuts(p1, p2);
    assert Bred(pop, f, ds, c)[i] == Child(pop, f, d, c) == Offspring(p1, p2, []);
  }

  /** The offspring as breeding is written: the second roulette walk also writes the first
      parent's index, so the first roll is lost, the second roll picks the first parent, and the
      second parent is whatever index `stale` the variable held before. */
  function ChildAsWritten(pop: seq<seq<char>>, f: seq<real>, d: Pairing, c: Config, stale: int): (child: seq<char>)
    requires |pop| >= 1 && Shaped(pop, |pop|, c.sizeMembers) && |f| == |pop| && NonNegative(f)
    requires ValidPairing(d, c.crossovers) && ConfigOk(c) && 0 <= stale < |pop|
    ensures |child| == c.sizeMembers
  {
    Offspring(pop[Pick(f, d.u2)], pop[stale], InsertionSort(CutPoints(d.cuts, c.sizeMembers)))
  }

  /** Two members of equal fitness, no crossover points, and rolls that select member 0 and then
      member 1: the offspring should copy member 0, but as written it copies member 1. */
  lemma AsWrittenSecondRollWins(pop: seq<seq<char>>, f: seq<real>, d: Pairing, c: Config, stale: int)
    requires pop == ["a", "b"] && f == [1.0, 1.0] && c == Config(1, "ab", 0, 0.0)
    requires d == Pairing(0.0, 0.75, []) && 0 <= stale < 2
    ensures Child(pop, f, d, c) == "a"
    ensures ChildAsWritten(pop, f, d, c, stale) == "b"
  {
    CumulativeFirst(f);
    CumulativeLast(f);
    RollIsValid(f, d.u1);
    RollIsValid(f, d.u2);
    assert Sum(f) == 2.0;
    assert Pick(f, d.u1) == 0;
    assert Pick(f, d.u2) == 1;
    assert InsertionSort(CutPoints(d.cuts, c.sizeMembers)) == [];
    OffspringWithoutCuts(pop[0], pop[1]);
    OffspringWithoutCuts(pop[1], pop[stale]);
  }

  /** The mean of the fitness values is at most the largest of them. */
  lemma MeanAtMostBest(f: seq<real>, best: int)
    requires 0 <= best < |f| && forall j :: 0 <= j < |f| ==> f[j] <= f[best]
    ensures Sum(f) / (|f| as real) <= f[best]
  {
    SumAtMost(f, f[best]);
  }

  lemma {:induction false} SumAtMost(f: seq<real>, m: real)
    requires forall j :: 0 <= j < |f| ==> f[j] <= m
    ensures Sum(f) <= (|f| as real) * m
    decreases |f|
  {
    if |f| > 0 {
      var n := |f| - 1;
      SumAtMost(f[..n], m);
      assert ((n + 1) as real) * m == (n as real) * m + m;
    }
  }

  /** `GeneticAlgorithm`: the population, the fitness of its members and the breeding settings. */
  class GeneticAlgorithm {
    var sizePopulation: nat
    var sizeMembers: nat
    var population: seq<seq<char>>
    var numActions: nat
    var actions: seq<char>
    var fitnessVals: seq<real>
    var totalFitness: real
    var crossovers: nat
    var mutationRate: real
    var totalGens: int

    /** The population has `sizePopulation` members of `sizeMembers` actions each, there is one
        fitness value per member, and `totalFitness` is their sum. */
    ghost predicate Valid()
      reads this
    {
      Shaped(population, sizePopulation, sizeMembers)
      && |actions| == numActions && OverAlphabet(population, actions)
      && |fitnessVals| == sizePopulation && totalFitness == Sum(fitnessVals)
    }

    function Settings(): Config
      reads this
    {
      Config(sizeMembers, actions, crossovers, mutationRate)
    }

    /** An engine over the given actions, starting from the given population, with every
        fitness value 0 and no generation trained. */
    constructor (sizePopulation: nat, sizeMembers: nat, actions: seq<char>, crossovers: nat,
                 mutationRate: real, initial: seq<seq<char>>)
      requires Shaped(initial, sizePopulation, sizeMembers) && OverAlphabet(initial, actions)
      ensures Valid()
      ensures this.sizePopulation == sizePopulation && this.sizeMembers == sizeMembers
      ensures this.actions == actions && this.crossovers == crossovers && this.mutationRate == mutationRate
      ensures population == initial && totalGens == 0 && numActions == |actions|
      ensures fitnessVals == seq(sizePopulation, i => 0.0) && totalFitness == 0.0
    {
      this.sizePopulation := sizePopulation;
      this.sizeMembers := sizeMembers;
      this.population := initial;
      this.numActions := |actions|;
      this.actions := actions;
      this.fitnessVals := seq(sizePopulation, i => 0.0);
      this.totalFitness := 0.0;
      this.crossovers := crossovers;
      this.mutationRate := mutationRate;
      this.totalGens := 0;
      new;
      ZerosSumToZero(sizePopulation);
    }

    /** Sets `fitnessVals[i]` to the fitness of member i for every i, and `totalFitness` to
        their sum. */
    method EvalFitness(fitness: seq<char> -> real)
      requires Valid()
      modifies this`fitnessVals, this`totalFitness
      ensures Valid() && fitnessVals == Scores(population, fitness)
    {
      totalFitness := 0.0;
      var vals := fitnessVals;
      var i := 0;
      while i < sizePopulation
        invariant 0 <= i <= sizePopulation && |vals| == sizePopulation
        invariant forall k :: 0 <= k < i ==> vals[k] == fitness(population[k])
        invariant totalFitness == Sum(vals[..i])
      {
        vals := vals[i := fitness(population[i])];
        assert vals[..i + 1][..i] == vals[..i];
        totalFitness := totalFitness + vals[i];
        i := i + 1;
      }
      assert vals[..sizePopulation] == vals;
      fitnessVals := vals;
    }

    /** Roulette selection for a fraction u in `[0, 1)`: the first member whose cumulative fitness
        reaches the roll `u * totalFitness`. */
    method Roulette(u: real) returns (index: int)
      requires |fitnessVals| >= 1 && NonNegative(fitnessVals) && totalFitness == Sum(fitnessVals)
      requires 0.0 <= u < 1.0
      ensures index == Pick(fitnessVals, u)
    {
      RollIsValid(fitnessVals, u);
      var roll := u * totalFitness;
      SameRoll(fitnessVals, u * Sum(fitnessVals), roll);
      CumulativeLast(fitnessVals);
      SumNonNegative(fitnessVals);
      CumulativeFirst(fitnessVals);
      index := 0;
      var currFitness := fitnessVals[0];
      while currFitness < roll
        invariant 0 <= index < |fitnessVals|
        invariant currFitness == Cumulative(fitnessVals, index)
        invariant forall j :: 0 <= j < index ==> Cumulative(fitnessVals, j) < roll
        decreases |fitnessVals| - index
      {
        CumulativeStep(fitnessVals, index);
        index := index + 1;
        currFitness := currFitness + fitnessVals[index];
      }
    }

    /** Inserts `x` into the sorted points `buf[..j]`: each point larger than the one carried is
        swapped with it, and the point carried last goes to position j. */
    static method InsertPoint(buf: array<int>, j: int, x: int)
      requires 0 <= j < buf.Length && Ascending(buf[..j])
      modifies buf
      ensures buf[..j + 1] == Insert(old(buf[..j]), x)
    {
      ghost var s := buf[..j];
      ghost var done: seq<int> := [];
      var currCrossoverPoint := x;
      var k := 0;
      assert s[0..j] == s;
      while k < j
        invariant 0 <= k <= j && |done| == k
        invariant buf[..j] == done + s[k..j]
        invariant done + Insert(s[k..j], currCrossoverPoint) == Insert(s, x)
      {
        ghost var c := currCrossoverPoint;
        assert buf[k] == s[k] by {
          assert buf[..j][k] == (done + s[k..j])[k];
        }
        currCrossoverPoint := KeepSmaller(buf, j, k, currCrossoverPoint);
        InsertStep(s, x, k, j, done, c, buf[k], currCrossoverPoint);
        done := done + [buf[k]];
        k := k + 1;
      }
      assert s[j..j] == [];
      buf[j] := currCrossoverPoint;
      assert buf[..j + 1] == buf[..j] + [currCrossoverPoint];
    }

    /** One pass of the insertion loop: the smaller of the carried point and `buf[k]` is left at
        k and the larger is carried on. */
    static method KeepSmaller(buf: array<int>, j: int, k: int, carried: int) returns (next: int)
      requires 0 <= k < j <= buf.Length
      modifies buf
      ensures carried < old(buf[k]) ==> buf[k] == carried && next == old(buf[k])
      ensures old(buf[k]) <= carried ==> buf[k] == old(buf[k]) && next == carried
      ensures buf[..j] == old(buf[..j])[k := buf[k]]
    {
      next := carried;
      if carried < buf[k] {
        next := buf[k];
        buf[k] := carried;
      }
    }

    /** The crossover points of one offspring, drawn from `[0, sizeMembers - 1]` and sorted by
        insertion as they are drawn. */
    method CrossoverPoints(raws: seq<RawDraw>) returns (points: seq<int>)
      requires |raws| == crossovers && (crossovers == 0 || sizeMembers >= 1)
      ensures points == InsertionSort(CutPoints(raws, sizeMembers))
    {
      ghost var cuts := CutPoints(raws, sizeMembers);
      var crossoverPoints := new int[crossovers];
      if crossovers > 0 {
        crossoverPoints[0] := GenRandInt(raws[0], 0, sizeMembers - 1);
        assert crossoverPoints[..1] == InsertionSort(cuts[..1]) by {
          assert cuts[..1][..0] == [];
        }
        var j := 1;
        while j < crossovers
          invariant 1 <= j <= crossovers
          invariant crossoverPoints[..j] == InsertionSort(cuts[..j])
        {
          var currCrossoverPoint := GenRandInt(raws[j], 0, sizeMembers - 1);
          assert currCrossoverPoint == cuts[j];
          InsertionSortAscending(cuts[..j]);
          InsertPoint(crossoverPoints, j, currCrossoverPoint);
          InsertionSortStep(cuts, j);
          j := j + 1;
        }
      }
      points := crossoverPoints[..];
      assert cuts[..crossovers] == cuts;
    }

    /** Copies the first parent up to the first point, then the second parent up to the next,
        and so on, then the rest from the parent whose turn it is. */
    method Crossover(indexParent1: int, indexParent2: int, crossoverPoints: seq<int>) returns (child: seq<char>)
      requires 0 <= indexParent1 < |population| && 0 <= indexParent2 < |population|
      requires |population[indexParent1]| == sizeMembers && |population[indexParent2]| == sizeMembers
      requires Ascending(crossoverPoints)
      requires forall k :: 0 <= k < |crossoverPoints| ==> 0 <= crossoverPoints[k] <= sizeMembers
      ensures child == Offspring(population[indexParent1], population[indexParent2], crossoverPoints)
    {
      AscendingIsSorted(crossoverPoints);
      ghost var expected := Offspring(population[indexParent1], population[indexParent2], crossoverPoints);
      var parent, other := indexParent1, indexParent2;
      var index := 0;
      child := [];
      var j := 0;
      while j < |crossoverPoints|
        invariant 0 <= j <= |crossoverPoints|
        invariant index == if j == 0 then 0 else crossoverPoints[j - 1]
        invariant (parent, other) == if j % 2 == 0 then (indexParent1, indexParent2) else (indexParent2, indexParent1)
        invariant |child| == index && forall p :: 0 <= p < index ==> child[p] == expected[p]
      {
        while index < crossoverPoints[j]
          invariant (if j == 0 then 0 else crossoverPoints[j - 1]) <= index <= crossoverPoints[j]
          invariant |child| == index && forall p :: 0 <= p < index ==> child[p] == expected[p]
        {
          CountAtMostSplit(crossoverPoints, index, j);
          child := child + [population[parent][index]];
          index := index + 1;
        }
        parent, other := other, parent;
        j := j + 1;
      }
      while index < sizeMembers
        invariant |child| == index <= sizeMembers && forall p :: 0 <= p < index ==> child[p] == expected[p]
        invariant |crossoverPoints| == 0 || crossoverPoints[|crossoverPoints| - 1] <= index
      {
        CountAtMostSplit(crossoverPoints, index, |crossoverPoints|);
        child := child + [population[parent][index]];
        index := index + 1;
      }
    }

    /** The offspring of one pairing: two parents chosen by roulette, crossed at sorted points. */
    method BreedChild(d: Pairing) returns (child: seq<char>)
      requires Valid() && sizePopulation >= 1 && NonNegative(fitnessVals) && ConfigOk(Settings())
      requires ValidPairing(d, crossovers)
      ensures child == Child(population, fitnessVals, d, Settings())
    {
      var indexParent1 := Roulette(d.u1);
      var indexParent2 := Roulette(d.u2);
      var crossoverPoints := CrossoverPoints(d.cuts);
      InsertionSortAscending(CutPoints(d.cuts, sizeMembers));
      SortedCutsInRange(d.cuts, sizeMembers);
      child := Crossover(indexParent1, indexParent2, crossoverPoints);
    }

    /** The offspring of every pairing, in order; the population is left as it is. */
    method Children(pairings: seq<Pairing>) returns (newPopulation: seq<seq<char>>)
      requires Valid() && NonNegative(fitnessVals) && ConfigOk(Settings())
      requires |pairings| == sizePopulation && forall i :: 0 <= i < |pairings| ==> ValidPairing(pairings[i], crossovers)
      ensures newPopulation == Bred(population, fitnessVals, pairings, Settings())
    {
      ghost var expected := Bred(population, fitnessVals, pairings, Settings());
      newPopulation := [];
      var i := 0;
      while i < sizePopulation
        invariant 0 <= i <= sizePopulation && |newPopulation| == i
        invariant forall k :: 0 <= k < i ==> newPopulation[k] == expected[k]
      {
        var child := BreedChild(pairings[i]);
        newPopulation := newPopulation + [child];
        i := i + 1;
      }
    }

    /** Replaces the population with the offspring of the pairings, one per member. */
    method Breed(pairings: seq<Pairing>)
      requires Valid() && NonNegative(fitnessVals) && ConfigOk(Settings())
      requires |pairings| == sizePopulation && forall i :: 0 <= i < |pairings| ==> ValidPairing(pairings[i], crossovers)
      modifies this`population
      ensures Valid()
      ensures population == Bred(old(population), fitnessVals, pairings, Settings())
    {
      var newPopulation := Children(pairings);
      BredKeepsAlphabet(population, fitnessVals, pairings, Settings());
      population := newPopulation;
    }

    /** Applies each member's mutations in order, each writing one of the actions at one
        position of the member. */
    method Mutate(mutations: seq<seq<Mutation>>)
      requires Valid() && ValidMutations(mutations, sizePopulation, Settings())
      modifies this`population
      ensures Valid()
      ensures population == Mutated(old(population), mutations, Settings())
    {
      MutatedKeepsAlphabet(population, mutations, Settings());
      ghost var expected := Mutated(population, mutations, Settings());
      var i := 0;
      while i < sizePopulation
        invariant 0 <= i <= sizePopulation && |population| == sizePopulation
        invariant forall k :: 0 <= k < i ==> population[k] == expected[k]
        invariant forall k :: i <= k < sizePopulation ==> population[k] == old(population)[k]
      {
        var member := MutateMember(population[i], mutations[i]);
        population := population[i := member];
        i := i + 1;
      }
      assert population == expected;
    }

    /** One member after its mutations, applied in order. */
    method MutateMember(member: seq<char>, ms: seq<Mutation>) returns (mutated: seq<char>)
      requires |actions| == numActions && Applicable(member, ms, actions)
      ensures mutated == ApplyMutations(member, ms, actions)
    {
      mutated := member;
      var j := 0;
      while j < |ms|
        invariant 0 <= j <= |ms|
        invariant mutated == ApplyMutations(member, ms[..j], actions)
      {
        var mutationIndex := GenRandInt(ms[j].rawIndex, 0, |member| - 1);
        var mutateAction := actions[GenRandInt(ms[j].rawAction, 0, numActions - 1)];
        mutated := mutated[mutationIndex := mutateAction];
        assert ms[..j + 1][..j] == ms[..j];
        j := j + 1;
      }
      assert ms[..|ms|] == ms;
    }

    /** One round: evaluate the fitness of every member, breed, then mutate. */
    method TrainOnce(fitness: seq<char> -> real, g: GenerationDraws)
      requires Valid() && FitnessNonNegative(fitness) && ConfigOk(Settings())
      requires ValidGeneration(g, sizePopulation, Settings())
      modifies this`population, this`fitnessVals, this`totalFitness
      ensures Valid() && population == Generation(old(population), fitness, g, Settings())
      ensures fitnessVals == Scores(old(population), fitness)
    {
      EvalFitness(fitness);
      ScoresNonNegative(population, fitness);
      Breed(g.pairings);
      Mutate(g.mutations);
    }

    /** Runs `numGenerations` rounds of evaluate, breed and mutate, and adds them to
        `totalGens`. */
    method Train(numGenerations: nat, fitness: seq<char> -> real, gens: seq<GenerationDraws>)
      requires Valid() && FitnessNonNegative(fitness) && ConfigOk(Settings())
      requires |gens| == numGenerations
      requires forall k :: 0 <= k < |gens| ==> ValidGeneration(gens[k], sizePopulation, Settings())
      modifies this`population, this`fitnessVals, this`totalFitness, this`totalGens
      ensures Valid() && totalGens == old(totalGens) + numGenerations
      ensures population == Run(old(population), fitness, gens, Settings())
      ensures numGenerations == 0 ==> fitnessVals == old(fitnessVals)
      ensures numGenerations > 0 ==>
        fitnessVals == Scores(Run(old(population), fitness, gens[..numGenerations - 1], Settings()), fitness)
    {
      ghost var c, start := Settings(), population;
      totalGens := totalGens + numGenerations;
      var currGeneration := 0;
      while currGeneration < numGenerations
        invariant 0 <= currGeneration <= numGenerations && Valid() && Settings() == c
        invariant totalGens == old(totalGens) + numGenerations
        invariant population == Run(start, fitness, gens[..currGeneration], c)
        invariant currGeneration == 0 ==> fitnessVals == old(fitnessVals)
        invariant currGeneration > 0 ==>
          fitnessVals == Scores(Run(start, fitness, gens[..currGeneration - 1], c), fitness)
      {
        RunStep(start, fitness, gens, c, currGeneration);
        TrainOnce(fitness, gens[currGeneration]);
        currGeneration := currGeneration + 1;
      }
      assert gens[..numGenerations] == gens;
    }

    /** The index of a member of highest fitness. */
    method MostFitIndex() returns (best: int)
      requires Valid() && sizePopulation >= 1
      ensures 0 <= best < sizePopulation
      ensures forall j :: 0 <= j < sizePopulation ==> fitnessVals[j] <= fitnessVals[best]
    {
      best := 0;
      var i := 1;
      while i < sizePopulation
        invariant 1 <= i <= sizePopulation && 0 <= best < i
        invariant forall j :: 0 <= j < i ==> fitnessVals[j] <= fitnessVals[best]
      {
        if fitnessVals[i] > fitnessVals[best] {
          best := i;
        }
        i := i + 1;
      }
    }

    /** The index of a member of highest fitness, re-evaluating the fitness first when asked. */
    method GetMostFit(calcFitness: bool, fitness: seq<char> -> real) returns (best: int)
      requires Valid() && sizePopulation >= 1
      modifies this`fitnessVals, this`totalFitness
      ensures Valid() && 0 <= best < sizePopulation
      ensures calcFitness ==> fitnessVals == Scores(population, fitness)
      ensures !calcFitness ==> fitnessVals == old(fitnessVals) && totalFitness == old(totalFitness)
      ensures forall j :: 0 <= j < sizePopulation ==> fitnessVals[j] <= fitnessVals[best]
    {
      if calcFitness {
        EvalFitness(fitness);
      }
      best := MostFitIndex();
    }

    /** A copy of one member; the population is left as it is. */
    method GetMember(member: int) returns (copy: seq<char>)
      requires Valid() && 0 <= member < sizePopulation
      ensures copy == population[member] && |copy| == sizeMembers
    {
      copy := population[member];
    }

    /** The mean fitness of the population. */
    method AverageFitness() returns (average: real)
      requires Valid() && sizePopulation >= 1
      ensures average * (sizePopulation as real) == Sum(fitnessVals)
    {
      average := totalFitness / (sizePopulation as real);
    }

    /** The mean fitness, re-evaluating the fitness first when asked. */
    method GetAverageFitness(calcFitness: bool, fitness: seq<char> -> real) returns (average: real)
      requires Valid() && sizePopulation >= 1
      modifies this`fitnessVals, this`totalFitness
      ensures Valid()
      ensures calcFitness ==> fitnessVals == Scores(population, fitness)
      ensures !calcFitness ==> fitnessVals == old(fitnessVals) && totalFitness == old(totalFitness)
      ensures average * (sizePopulation as real) == Sum(fitnessVals)
    {
      if calcFitness {
        EvalFitness(fitness);
      }
      average := AverageFitness();
    }

    method SetCrossovers(crossovers: nat)
      modifies this`crossovers
      ensures this.crossovers == crossovers
    {
      this.crossovers := crossovers;
    }

    method SetMutationRate(mutationRate: real)
      modifies this`mutationRate
      ensures this.mutationRate == mutationRate
    {
      this.mutationRate := mutationRate;
    }

    method SetTotalGens(totalGens: int)
      modifies this`totalGens
      ensures this.totalGens == totalGens
    {
      this.totalGens := totalGens;
    }

    /**
     * Copy-assignment: unless `other` is this engine, copies its sizes and every symbol of its
     * population.  Nothing else is copied, so the result is consistent only when both engines
     * have the same population size and actions.
     */
    method Assign(other: GeneticAlgorithm)
      requires Valid() && other.Valid()
      modifies this`sizePopulation, this`sizeMembers, this`population
      ensures sizePopulation == old(other.sizePopulation) && sizeMembers == old(other.sizeMembers)
      ensures population == old(other.population)
      ensures old(sizePopulation) == other.sizePopulation && actions == other.actions ==> Valid()
    {
      if this != other {
        var copy: seq<seq<char>> := [];
        var i := 0;
        while i < other.sizePopulation
          invariant 0 <= i <= other.sizePopulation && |copy| == i
          invariant forall k :: 0 <= k < i ==> copy[k] == other.population[k]
        {
          copy := copy + [other.population[i]];
          i := i + 1;
        }
        sizePopulation := other.sizePopulation;
        sizeMembers := other.sizeMembers;
        population := copy;
      }
    }
  }

  /** A point smaller than `s[k]` goes in front of the sorted `s[k..j]`, and `s[k]`, carried on,
      goes in front of the rest. */
  lemma InsertBeforeLarger(s: seq<int>, k: int, j: int, c: int)
    requires Sorted(s) && 0 <= k < j <= |s| && c < s[k]
    ensures Insert(s[k..j], c) == [c] + s[k..j]
    ensures Insert(s[k + 1..j], s[k]) == s[k..j]
  {
    var t := s[k + 1..j];
    assert s[k..j] == [s[k]] + t;
    assert forall m :: 0 <= m < |t| ==> s[k] <= t[m] by {
      forall m | 0 <= m < |t|
        ensures s[k] <= t[m]
      {
        assert t[m] == s[k + 1 + m];
      }
    }
    InsertSmallest(t, s[k]);
  }

  /** A point at least `s[k]` is inserted after it. */
  lemma InsertAfterSmaller(s: seq<int>, k: int, j: int, c: int)
    requires 0 <= k < j <= |s| && s[k] <= c
    ensures Insert(s[k..j], c) == [s[k]] + Insert(s[k + 1..j], c)
  {
    assert s[k..j][1..] == s[k + 1..j];
  }

  /** One pass of the insertion loop at position k: the smaller of the carried point c and
      `s[k]` stays at k, the larger is carried on, and the rest of the insertion is unchanged. */
  lemma InsertStep(s: seq<int>, x: int, k: int, j: int, done: seq<int>, c: int, v: int, next: int)
    requires Ascending(s) && 0 <= k < j <= |s| && |done| == k
    requires done + Insert(s[k..j], c) == Insert(s, x)
    requires if c < s[k] then v == c && next == s[k] else v == s[k] && next == c
    ensures (done + [v]) + Insert(s[k + 1..j], next) == Insert(s, x)
    ensures (done + s[k..j])[k := v] == (done + [v]) + s[k + 1..j]
  {
    AscendingIsSorted(s);
    if c < s[k] {
      InsertBeforeLarger(s, k, j, c);
    } else {
      InsertAfterSmaller(s, k, j, c);
    }
    AppendAssociates(done, [v], Insert(s[k + 1..j], next));
    ReplaceFirstOfRest(done, s[k..j], v);
    assert s[k..j][1..] == s[k + 1..j];
  }

  /** Sortedness stated one adjacent pair at a time. */
  predicate Ascending(s: seq<int>)
  {
    |s| <= 1 || (s[0] <= s[1] && Ascending(s[1..]))
  }

  lemma {:induction false} SortedIsAscending(s: seq<int>)
    requires Sorted(s)
    ensures Ascending(s)
    decreases |s|
  {
    if |s| > 1 {
      assert Sorted(s[1..]);
      SortedIsAscending(s[1..]);
    }
  }

  /** Sorting one more point inserts it into the sorted points before it. */
  lemma InsertionSortStep(d: seq<int>, j: int)
    requires 0 <= j < |d|
    ensures InsertionSort(d[..j + 1]) == Insert(InsertionSort(d[..j]), d[j])
  {
    assert d[..j + 1][..j] == d[..j];
  }

  lemma InsertionSortAscending(d: seq<int>)
    ensures Ascending(InsertionSort(d))
  {
    InsertionSortSorts(d);
    SortedIsAscending(InsertionSort(d));
  }

  lemma {:induction false} AscendingIsSorted(s: seq<int>)
    requires Ascending(s)
    ensures Sorted(s)
    decreases |s|
  {
    if |s| > 1 {
      AscendingIsSorted(s[1..]);
      forall i, j | 0 <= i < j < |s|
        ensures s[i] <= s[j]
      {
        if i > 0 {
          assert s[i] == s[1..][i - 1] && s[j] == s[1..][j - 1];
        } else {
          assert s[j] == s[1..][j - 1];
        }
      }
    }
  }

  /** Overwriting the first element after a prefix. */
  lemma ReplaceFirstOfRest(d: seq<int>, t: seq<int>, v: int)
    requires |t| >= 1
    ensures (d + t)[|d| := v] == (d + [v]) + t[1..]
  {
  }

  lemma AppendAssociates(a: seq<int>, b: seq<int>, c: seq<int>)
    ensures (a + b) + c == a + (b + c)
  {
  }

  lemma {:induction false} ZerosSumToZero(n: nat)
    ensures Sum(seq(n, i => 0.0)) == 0.0
  {
    if n > 0 {
      ZerosSumToZero(n - 1);
      assert seq(n, i => 0.0)[..n - 1] == seq(n - 1, i => 0.0);
    }
  }
}

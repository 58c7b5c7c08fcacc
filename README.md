# game-of-life: a verified model of the evolutionary engine and its simulators

This project models, in Dafny, the core of the `game-of-life` repository:

- **the genetic-algorithm engine** (`GeneticAlgorithm`). A population of fixed-length symbol
  strings goes through generations of fitness evaluation, roulette selection, multi-point
  crossover and point mutation (`genetic_ops.dfy`, `genetic.dfy`);
- **the one-dimensional cellular automaton** (`CellularAutomata1D`). It has 8 rules, a periodic
  boundary, and the `step`, `simulate` and `majority` operations. The rule-count arithmetic of
  its radius-k generalisation is modelled too (`automaton.dfy`);
- **the majority-classification fitness** (`MajoritySolverGA::fitness`), which scores a rule
  table on a batch of test strings (`majority_solver.dfy`);
- **Conway's Game of Life on a toroidal board** (`GameOfLife`): placing an organism, one
  synchronous step, and the count of changed cells (`life.dfy`);
- **the periodic "modspace" index wrap** `((v % m) + m) % m`, with the C++ truncating `%`
  written out (`periodic.dfy`).

Each operation is stated against a specification function and proved against it. The C++
code changes things in place, and the model keeps that form: classes with fields, arrays for
the automaton domain and the Game-of-Life board, and loops with invariants. Properties are
proved about the specification functions. They cover:

- roulette selection picks the first member whose cumulative fitness reaches the roll;
- the inserted crossover points are sorted and keep every point;
- crossover takes each symbol from one parent at the same position;
- mutation touches only its targets and stays in the alphabet;
- training keeps the alphabet;
- the automaton step commutes with rotation;
- `majority` reports -1 exactly when no generation within the budget is uniform;
- the fitness lies in `[0, 2 * tests]`, and the top score is reached exactly when every test is
  classified correctly;
- the Game-of-Life change count is 0 exactly when the board is unchanged;
- the modspace wrap is the Euclidean remainder.

The model does not run anything random. Every draw of `rng` is an input:

- a fraction `u` in `[0, 1)` for a real draw, since `genRandDouble(0, t)` is `u * t`;
- a raw integer in `[0, INT32_MAX)` for `genRandInt`, which then takes the truncated remainder.

The fitness oracle, a virtual method in C++, is a function parameter from a member's symbols to
a non-negative real. The random test strings of the majority fitness are an input batch, so
the model's fitness is deterministic. The code draws fresh strings on every call, so scoring
the same member twice can give two different values; the oracle cannot express that. C++
`double` is modelled as `real`.

Where the documented design and the code differ, the model follows the code:

- crossover points are drawn with replacement and may repeat;
- the number of mutations per member is a bounded count, not a per-symbol probability;
- selection is not guarded against a total fitness of 0. A roll of 0 then selects member 0;
- the roulette walk stops when the cumulative fitness *reaches* the roll;
- `majority` steps before it tests, so a start that is already uniform is not reported after
  0 steps. It reports the first uniform generation from 1 on, and -1 when `maxSteps <= 0`
  (`Automaton.UniformStartIsStepped`);
- no configuration error is ever raised: non-positive sizes and board dimensions are not
  rejected at construction. The model uses `nat` sizes, and a `requires` states what each
  operation needs of them.

## Model

| member | source | states |
|---|---|---|
| Periodic.Bit | cellularautomata.cpp:108 | a `bool` in arithmetic is 1 exactly when it is true, else 0 |
| Periodic.CRem | debug.cpp:11-27 | the C++ remainder for `m > 0` lies strictly between `-m` and `m` and has the sign of the dividend |
| Periodic.CRemIsTruncated | debug.cpp:15 | the C++ remainder equals the Euclidean one on naturals and is its mirror image on negative numbers |
| Periodic.Wrap | debug.cpp:7 | the modspace wrap always lands in `[0, m)` |
| Periodic.WrapIsEuclidean | debug.cpp:7-28 | the wrap `((v % m) + m) % m` equals the Euclidean remainder for every integer `v` |
| Periodic.WrapIdentity | debug.cpp:7 | an index already in `[0, m)` is left alone |
| Periodic.WrapPeriodic | debug.cpp:18-28 | adding any whole number of periods does not change the wrap |
| Periodic.WrapNeighbours | cellularautomata.cpp:107-119 | the spelled-out boundary cases for `i - 1` and `i + 1` are the modspace wrap |
| Periodic.ExpectedValues | debug.cpp:11-28 | the wrap gives each expected value of the modspace checks (3, 5, 5, 5, 5) |
| Periodic.RawRemainderIsNegative | debug.cpp:14-28 | the raw C++ remainder gives -2, not 5, for each negative dividend of the checks |
| Periodic.WrapAgreesWithRemainderOnNaturals | debug.cpp:11-12 | for a non-negative dividend the raw remainder already is the wrap |
| Automaton.Neighbourhood | cellularautomata.cpp:108 | the rule index `left*4 + center*2 + right` is below 8 |
| Automaton.NeighbourhoodDecodes | cellularautomata.cpp:113 | the rule index is a 3-bit code from which each of the three cells can be read back |
| Automaton.NeighbourhoodOnto | cellularautomata.h:31 | every one of the 8 rules is reached by some neighbourhood |
| Automaton.NextDomainCells | cellularautomata.cpp:101-124 | every new cell is the rule applied to the wrapped neighbourhood in the old domain, so the update is synchronous |
| Automaton.CellsMakeStep | cellularautomata.cpp:105-119 | a buffer whose every cell is the rule applied to the old neighbourhood is the step |
| Automaton.StepBoundaryCases | cellularautomata.cpp:107-119 | the left-end, interior and right-end cases of the step are the wrap formula |
| Automaton.StepCommutesWithRotation | cellularautomata.cpp:101-124 | stepping a rotated domain gives the rotated step: the ring has no distinguished cell |
| Automaton.UniformIffAdjacentEqual | cellularautomata.cpp:82-87 | comparing every adjacent pair decides uniformity, in both directions |
| Automaton.TrajectoryShape | cellularautomata.cpp:40-68 | the output has `numSteps + 1` snapshots of the domain's length; snapshot 0 is the start and each next one is a step of the previous |
| Automaton.TrajectoryExtend | cellularautomata.cpp:54-65 | one more simulation round appends one step of the last snapshot |
| Automaton.IterateLast | cellularautomata.cpp:54-65 | the (n+1)-fold step is one step of the n-fold step |
| Automaton.MajorityOutcome | cellularautomata.cpp:70-99 | the majority outcome is -1, 0 or 1 |
| Automaton.UniformStartIsStepped | cellularautomata.cpp:77-91 | an all-on start is already uniform, yet with no budget the outcome is -1 and under the all-off table it is 0: the start is stepped before it is tested |
| Automaton.MajorityNonConvergence | cellularautomata.cpp:77-95 | the outcome is -1 exactly when none of generations 1..maxSteps is uniform (both directions) |
| Automaton.MajorityFirstUniform | cellularautomata.cpp:77-98 | when the outcome is not -1 it is the value of the first uniform generation within the budget |
| Automaton.MajorityAsWrittenNeverSignals | cellularautomata.cpp:94-98 | the return test as written can never yield -1 once the loop has exited |
| Automaton.IdentityNeverConverges | cellularautomata.cpp:77-91 | under the identity rule table a non-uniform domain never converges, so the outcome is -1 |
| Automaton.MajorityAsWrittenCounterexample | cellularautomata.cpp:94-98 | for `[true, false]` under the identity table the intended outcome is -1, but the written return gives 1 |
| Automaton.Automaton1D.Table | cellularautomata.cpp:109 | a rule fires exactly when its stored symbol is the "on" symbol |
| Automaton.Automaton1D.constructor | cellularautomata.cpp:13-17 | the table holds the first 8 given symbols |
| Automaton.Automaton1D.SetRules | cellularautomata.cpp:127-131 | the whole table is replaced by the first 8 new symbols |
| Automaton.Automaton1D.Step | cellularautomata.cpp:101-124 | the caller's domain becomes the synchronous step of its old contents |
| Automaton.Automaton1D.ApplyRule | cellularautomata.cpp:108-109 | the new cell is the table entry at the neighbourhood index |
| Automaton.Automaton1D.NextBuffer | cellularautomata.cpp:105-119 | a fresh buffer holds the step of the unchanged old domain |
| Automaton.Automaton1D.FillInterior | cellularautomata.cpp:111-115 | interior cells get their next value; the two end cells are untouched |
| Automaton.Automaton1D.Simulate | cellularautomata.cpp:40-68 | the output is the trajectory: the start and then `numSteps` successive steps |
| Automaton.Automaton1D.Majority | cellularautomata.cpp:70-99 | the result is the majority outcome: the first uniform generation's value, or -1 if the budget runs out |
| Automaton.Automaton1D.Settled | cellularautomata.cpp:81-87 | the adjacent-pair scan returns true exactly when the domain is uniform |
| Automaton.RuleCount | cellularautomata.cpp:202-209 | starting at 2 and doubling `2k` times gives `2^(2k+1)` rules |
| Automaton.Window | cellularautomata.h:52 | the radius-k neighbourhood value over `t + 1` cells is below `2^(t+1)`, a valid index into the table |
| Automaton.GeneralRadiusOneIsClassic | cellularautomata.h:52 | with radius 1 the table has 8 entries and the generalised step is the classic step |
| MajoritySolver.ExpectedMajorityIsStrict | cellularautomata.cpp:182-186 | the expected answer is 1 exactly when on cells are a strict majority; a tie counts as 0 |
| MajoritySolver.CountsStep | cellularautomata.cpp:171-195 | scoring one more test adds that test's outcome to both counts |
| MajoritySolver.CountsAreDisjoint | cellularautomata.cpp:189-194 | no test is both correct and unsettled: the two counts together fit the batch |
| MajoritySolver.ScoreBounds | cellularautomata.cpp:160-197 | the fitness lies in `[0, 2 * numFitnessTests]` |
| MajoritySolver.PerfectScore | cellularautomata.cpp:160-197 | the fitness is `2 * numFitnessTests` exactly when every test is classified correctly (both directions) |
| MajoritySolver.NothingSettlesScoresZero | cellularautomata.cpp:190-191 | a batch on which the automaton never settles scores 0 |
| MajoritySolver.MajoritySolverGA.constructor | cellularautomata.h:37-50 | the solver holds the automaton and its test settings |
| MajoritySolver.MajoritySolverGA.Fitness | cellularautomata.cpp:155-198 | the automaton is left with the member's rules, and the fitness is `tests + correct - unsettled` for that table |
| MajoritySolver.MajoritySolverGA.CountOn | cellularautomata.cpp:173-181 | the counting loop returns the number of on cells |
| Life.Dead | gameoflife.cpp:33-39 | the fresh board has the board's shape and every cell dead |
| Life.Neighbours | gameoflife.cpp:41-51 | a neighbour count is at most 8 |
| Life.NeighboursAreWrapped | gameoflife.cpp:41-175 | the neighbour count is the sum over the 8 offsets of the cell at the modspace-wrapped row and column |
| Life.NextGridCells | gameoflife.cpp:53-58 | each next cell is Conway's rule on the cell and its count in the old board |
| Life.DeadStaysDead | gameoflife.cpp:29-190 | an all-dead board stays all dead |
| Life.BlockIsStill | gameoflife.cpp:29-190 | the 2 x 2 block in a 4 x 4 board is a still life: a step leaves the board unchanged |
| Life.HammingStep | gameoflife.cpp:179-183 | counting one more row adds that row's differing cells |
| Life.RowDiffZeroIffEqual | gameoflife.cpp:181 | a row has no differing cell exactly when the rows are equal |
| Life.HammingZeroIffEqual | gameoflife.cpp:177-189 | the step returns 0 exactly when the board did not change (both directions) |
| Life.HammingBound | gameoflife.cpp:177-183 | the changed-cell count is at most `rows * cols` |
| Life.RowMajorInRange | gameoflife.cpp:7-11 | the row-major index `r * orgCols + c` of an organism cell is inside the organism |
| Life.OverlayPlacesOrganism | gameoflife.cpp:5-13 | organism cell (r, c) lands at `((rows - orgRows) / 2 + r, (cols - orgCols) / 2 + c)` |
| Life.OverlayKeepsOutside | gameoflife.cpp:3-14 | every cell outside the centred rectangle is unchanged |
| Life.Truthy | gameoflife.cpp:23 | a symbol is alive exactly when it is not the zero character |
| Life.SymbolsReadBack | gameoflife.h:21-23 | the symbol overload places the same pattern as the bool overload |
| Life.DigitsAreAlive | gameoflife.cpp:23 | the printable digits `'0'` and `'1'` both read as alive |
| Life.AsWrittenCornerStaysDead | gameoflife.cpp:159-175 | as written, the lower-right cell is never alive after a step |
| Life.AsWrittenSurvivalCounterexample | gameoflife.cpp:54 | a live cell with 2 neighbours survives by Conway's rule, but the written test reads cell (0, 0) and kills it |
| Life.AsWrittenCornerCounterexample | gameoflife.cpp:171-174 | a lower-right cell with 3 neighbours is born by the rule, but as written it stays dead |
| Life.AsWrittenEdgeCounterexample | gameoflife.cpp:99-119 | a left-column cell with 2 neighbours survives by the rule, but as written it is never computed |
| Life.GameOfLife.constructor | gameoflife.h:15 | a `rows` x `cols` board with every cell dead (an assumption: the constructor has no definition) |
| Life.GameOfLife.AddOrganism | gameoflife.cpp:3-14 | the board becomes the old board with the organism copied, row by row, into its centre |
| Life.GameOfLife.PlaceRow | gameoflife.cpp:9-12 | organism row i lands in board row `rowPad + i` from column `colPad` on, the running index advances by `orgCols`, and every other cell keeps its value |
| Life.GameOfLife.AddOrganismSymbols | gameoflife.cpp:16-27 | the same, with a cell alive exactly when its symbol is non-zero |
| Life.GameOfLife.ResetBoard | gameoflife.h:50-51 | every cell becomes dead |
| Life.GameOfLife.GetBoardSafe | gameoflife.h:28-29 | the caller's buffer receives a copy of the board |
| Life.GameOfLife.CountNeighbours | gameoflife.cpp:63-71 | the count is the number of live wrapped neighbours |
| Life.GameOfLife.Step | gameoflife.cpp:29-190 | the board becomes a fresh board holding the next generation, and the result is the number of changed cells |
| Life.GameOfLife.NextBoard | gameoflife.cpp:33-175 | a fresh buffer holds the next generation of the unchanged old board |
| Life.GameOfLife.NextRow | gameoflife.cpp:100-119 | one row of the buffer gets its next cells; the other rows are untouched |
| Life.GameOfLife.CountChanges | gameoflife.cpp:177-183 | the count is the number of cells where the two boards differ |
| Life.GameOfLife.RowChanges | gameoflife.cpp:180-182 | the count is the number of cells of one row where the two boards differ |
| GeneticOps.GenRandInt | rng.cpp:19-21 | a raw draw reduced by `% (max - min + 1)` and shifted by `min` lies in `[min, max]` |
| GeneticOps.GenRandIntReachesEveryValue | rng.h:29-32 | every value of `[min, max]`, both ends included, is drawn by some raw draw |
| GeneticOps.InclusiveActionDraw | geneticsolver.cpp:194 | the action draw with `max == numActions` can yield `numActions`, one past the last action |
| GeneticOps.SumNonNegative | geneticsolver.cpp:88-92 | the total of non-negative fitness values is non-negative |
| GeneticOps.CumulativeStep | geneticsolver.cpp:126-129 | the cumulative fitness of member k + 1 is that of member k plus its fitness |
| GeneticOps.RollIsValid | geneticsolver.cpp:123 | the roll `u * totalFitness` lies in `[0, total)`, or is 0 when the total is 0 |
| GeneticOps.Pick | geneticsolver.cpp:122-129 | the member picked for a fraction `u` is a member index |
| GeneticOps.FirstReach | geneticsolver.cpp:124-129 | the walk stops at the first member from k on whose cumulative fitness reaches the roll, or at the last member |
| GeneticOps.Select | geneticsolver.cpp:122-129 | roulette selection is the first member whose cumulative fitness reaches the roll |
| GeneticOps.SelectSkipsZeroFitness | geneticsolver.cpp:122-129 | for a positive roll, a member with fitness 0 is never selected |
| GeneticOps.SelectMonotone | geneticsolver.cpp:122-129 | a larger roll never selects an earlier member |
| GeneticOps.RouletteAsWrittenOverruns | geneticsolver.cpp:124-129 | for fitness `[0, 1]` and roll 0.5, selection is member 1, but the walk as written ends at index 2, past the end |
| GeneticOps.CutPoints | geneticsolver.cpp:141-143 | each drawn crossover point lies in `[0, sizeMembers - 1]` |
| GeneticOps.InsertPermutes | geneticsolver.cpp:144-151 | inserting keeps every point and adds the new one |
| GeneticOps.InsertKeepsSorted | geneticsolver.cpp:144-151 | inserting into sorted points keeps them sorted |
| GeneticOps.InsertionSortSorts | geneticsolver.cpp:140-152 | the insertion passes leave the points sorted and a permutation of the drawn ones |
| GeneticOps.SortedCutsInRange | geneticsolver.cpp:140-152 | the sorted points still lie in `[0, sizeMembers - 1]` |
| GeneticOps.OffspringKeepsPositions | geneticsolver.cpp:154-171 | every symbol of the offspring is its first or second parent's symbol at the same position |
| GeneticOps.OffspringWithoutCuts | geneticsolver.cpp:167-171 | with no crossover point the offspring is the first parent |
| GeneticOps.OnePointCrossover | geneticsolver.cpp:154-171 | with one point c the offspring is `parent1[..c] + parent2[c..]` |
| GeneticOps.CountAtMostSplit | geneticsolver.cpp:155-166 | after j segments of sorted points, position p lies past exactly j of them |
| GeneticOps.CopyBelowIsSpan | geneticsolver.cpp:157-160 | a copy loop writes each position from the index up to its bound once, in order |
| GeneticOps.CopiedAsWrittenIsSpan | geneticsolver.cpp:154-171 | with every point in `[0, sizeMembers]`, the loops of one offspring write the positions from the entry index to `sizeMembers` in order and leave the index at `sizeMembers` or beyond |
| GeneticOps.NothingLeftToCopy | geneticsolver.cpp:110-171 | once the shared index has reached `sizeMembers`, no later offspring gets any position |
| GeneticOps.LaterOffspringUnwritten | geneticsolver.cpp:110-171 | with the index never reset, the first offspring is written in full and every later one not at all |
| GeneticOps.SecondOffspringUnwritten | geneticsolver.cpp:110-171 | two offspring of two symbols, no crossover: the first gets positions 0 and 1, the second none |
| GeneticOps.MutationsTouchOnlyTargets | geneticsolver.cpp:192-196 | at most one position per mutation changes, it holds an action, and every other position is unchanged |
| GeneticOps.MutationsKeepAlphabet | geneticsolver.cpp:194-195 | a member over the actions stays over the actions |
| GeneticOps.ZeroRateMutatesNothing | geneticsolver.cpp:191 | with mutation rate 0 no mutation happens |
| GeneticOps.MutationCountBound | geneticsolver.cpp:191 | the mutation count is at most the whole part of `rate * sizeMembers` |
| Genetic.ChildKeepsAlphabet | geneticsolver.cpp:154-171 | an offspring of a population over the actions is over the actions |
| Genetic.BredKeepsAlphabet | geneticsolver.cpp:114-177 | breeding keeps every symbol among the actions |
| Genetic.MutatedKeepsAlphabet | geneticsolver.cpp:190-197 | mutation keeps every symbol among the actions |
| Genetic.RunKeepsAlphabet | geneticsolver.cpp:68-84 | any number of generations keeps every symbol among the actions |
| Genetic.RunStep | geneticsolver.cpp:74-83 | training n + 1 generations is training n and then one more |
| Genetic.ZeroRateGenerationOnlyBreeds | geneticsolver.cpp:76-80 | with mutation rate 0 a generation is pure breeding |
| Genetic.NoCrossoverCopiesFirstParent | geneticsolver.cpp:155-171 | with no crossovers each offspring copies its first roulette-selected parent |
| Genetic.AsWrittenSecondRollWins | geneticsolver.cpp:131-138 | for rolls that select member 0 then member 1, the offspring should copy member 0, but as written it copies member 1 |
| Genetic.MeanAtMostBest | geneticsolver.h:68-75 | the average fitness is at most the fitness of the most fit member |
| Genetic.GeneticAlgorithm.constructor | geneticsolver.h:43 | an engine with the given sizes, actions and settings, the given population, fitness 0 and no generations |
| Genetic.GeneticAlgorithm.EvalFitness | geneticsolver.cpp:86-93 | every member's fitness is evaluated, and `totalFitness` is their sum |
| Genetic.GeneticAlgorithm.Roulette | geneticsolver.cpp:122-129 | the index is the roulette selection for the roll `u * totalFitness` |
| Genetic.GeneticAlgorithm.InsertPoint | geneticsolver.cpp:143-151 | the swap pass inserts the new point into the sorted points before it |
| Genetic.GeneticAlgorithm.KeepSmaller | geneticsolver.cpp:145-149 | one swap leaves the smaller of the carried point and `buf[k]` at k and carries the larger |
| Genetic.GeneticAlgorithm.CrossoverPoints | geneticsolver.cpp:140-152 | the points are the drawn points, insertion-sorted |
| Genetic.GeneticAlgorithm.Crossover | geneticsolver.cpp:154-171 | the offspring copies the parents alternately between sorted points |
| Genetic.GeneticAlgorithm.BreedChild | geneticsolver.cpp:121-171 | one offspring: two roulette parents crossed at the sorted points |
| Genetic.GeneticAlgorithm.Children | geneticsolver.cpp:114-172 | one offspring per pairing, in order |
| Genetic.GeneticAlgorithm.Breed | geneticsolver.cpp:95-178 | the population is replaced by the bred population and stays over the actions |
| Genetic.GeneticAlgorithm.Mutate | geneticsolver.cpp:180-198 | each member becomes itself after its mutations |
| Genetic.GeneticAlgorithm.MutateMember | geneticsolver.cpp:191-196 | the mutations of one member are applied in order |
| Genetic.GeneticAlgorithm.TrainOnce | geneticsolver.cpp:75-82 | one round evaluates, breeds and mutates: the population becomes the next generation |
| Genetic.GeneticAlgorithm.Train | geneticsolver.cpp:68-84 | `totalGens` grows by `numGenerations` and the population is the result of that many generations |
| Genetic.GeneticAlgorithm.MostFitIndex | geneticsolver.h:68-69 | the index is of a member of highest fitness |
| Genetic.GeneticAlgorithm.GetMostFit | geneticsolver.h:68-69 | the index is of a most fit member, re-evaluating the fitness first when asked |
| Genetic.GeneticAlgorithm.GetMember | geneticsolver.h:72-73 | a copy of the requested member |
| Genetic.GeneticAlgorithm.AverageFitness | geneticsolver.h:74-75 | the average times the population size is the total fitness |
| Genetic.GeneticAlgorithm.GetAverageFitness | geneticsolver.h:74-75 | the same, re-evaluating the fitness first when asked |
| Genetic.GeneticAlgorithm.SetCrossovers | geneticsolver.h:78 | sets the number of crossover points |
| Genetic.GeneticAlgorithm.SetMutationRate | geneticsolver.h:79 | sets the mutation rate |
| Genetic.GeneticAlgorithm.SetTotalGens | geneticsolver.h:80 | sets the generation counter |
| Genetic.GeneticAlgorithm.Assign | geneticsolver.cpp:24-43 | unless it is self-assignment, copies the sizes and every member of the other engine's population, and nothing else |

## Left out

- SDL rendering, `snapShot` and `drawPixelGrid`, `main`, and the Game-of-Life printing helpers: I/O with no algorithmic content.
- The `rng` state, seeding and the Mersenne twister: every draw is an input (see above).
- `load`, `save` and `initPop`: the first two are empty, and `initPop` draws nothing (its loop body is empty). The model's engine is therefore given its initial population.
- `GameOfLifeGA`, `randomBoard` and `getBoard`: declared in `gameoflife.h` without definitions in the modelled files.
- `CellularAutomata1DGeneral`: its constructors, `simulate`, `majority` and `step` are `TODO` stubs. Only the rule count of the default constructor is modelled, plus the intended radius-k step.
- Destructors, `clearPop`, `clearBoard`, `deleteBoard` and every `new`/`delete`: memory management. Dafny's garbage-collected arrays and sequences stand in for them.
- C++ `double` is modelled as exact `real`: rounding in the fitness sums and rolls is not modelled.
- 32-bit `int` overflow is not modelled, since every counter is far below `INT32_MAX` for any board or population that fits in memory.
- Automaton.Automaton1D.Step: writes the new domain back into the caller's buffer. The code reassigns its by-value pointer parameter and frees the caller's buffer, so as written the caller never sees the step; that use of a freed buffer is not modelled.
- Automaton.Automaton1D.Majority: starts from a copy of `start`. The code allocates its local buffer without ever copying `start` into it.
- Automaton.Automaton1D.Step: requires a domain of at least 2 cells, as the code's reads of `curr[1]` and `curr[domainSize - 2]` need.
- Automaton.Automaton1D.Table: the header declares `bool rules[8]`, but the code stores and compares symbols (`CA_TRUE`). The model stores symbols and an "on" symbol.
- Life.GameOfLife.Step: is the intended Conway step for every board size. The code reads rows 1 and `rows - 2`, so it needs at least 2 rows and 2 columns; its mistakes are modelled separately (see Findings).
- Genetic.GeneticAlgorithm.Crossover: starts copying each offspring at position 0. The code declares `index` once, outside the loop over offspring, never initialises it and never resets it. Even from 0 it reaches `sizeMembers` during the first offspring, so every later offspring is left unwritten (see Findings).
- Genetic.GeneticAlgorithm.CrossoverPoints: draws no point when `crossovers == 0`. The code writes `crossoverPoints[0]` into a zero-length array.
- Genetic.GeneticAlgorithm.Assign: returns nothing, like the code, whose `operator=` has no `return`. The copy constructor at geneticsolver.cpp:14-22 copies the same fields and is not modelled separately.
- Genetic.GeneticAlgorithm.constructor: the six-argument constructor is only declared. The model takes the same settings plus the initial population, and sets `numActions` to the number of actions.
- Genetic.GeneticAlgorithm.Train: takes a `nat` count. The header's default argument of 1 is not modelled. A negative count, which the code accepts, lowers `totalGens` and runs no round; it is not modelled either.
- Life.GameOfLife.constructor: `GameOfLife()`, `GameOfLife(rows, cols)`, `getBoardSafe` and `resetBoard` are declared in `gameoflife.h` without definitions in the modelled files. Only `addOrganism`, `step` and `clearBoard` are defined. The contracts of `Life.GameOfLife.constructor`, `Life.GameOfLife.GetBoardSafe` and `Life.GameOfLife.ResetBoard` are read from the header comments. The all-dead starting board is an assumption. The default 10 x 10 constructor is not modelled.
- Genetic.GeneticAlgorithm.MostFitIndex: `getMostFit`, `getMember`, `getAverageFitness` and the three setters are declared in the header without bodies. Their contracts state the header comments' promises.
- Genetic.GeneticAlgorithm.AverageFitness: requires a non-empty population, since the mean of no members is undefined.
- GeneticOps.MutationCountAllowed: states the truncated count `(int)(u * rate * sizeMembers)` as "0, or below `rate * sizeMembers`". It does not fix which count a given `u` yields.
- `GA_DEFAULT_MUTATION_RATE` is declared `int` and initialised with 0.1, so it is 0. The defaults are not used by the modelled operations.

## Findings

| source | as written | input that shows it | evidently intended | confidence | as-written member | corrected member |
|---|---|---|---|---|---|---|
| debug.cpp:15 | `(val - 5) % max` with the truncating C++ `%` | `val = 3, max = 7` gives -2 (also `5 - 7` and `5 - 14`) | the periodic index 5, which the wrap `((v % m) + m) % m` gives | not executed; medium (the checks may be meant to exhibit this) | Periodic.RawRemainderIsNegative | Periodic.ExpectedValues |
| cellularautomata.cpp:94 | `if(!done && currStep < maxSteps) return -1;` after a loop that exits only when `done` or `currStep >= maxSteps` | identity rule table, start `[true, false]`, `maxSteps = 1`: never uniform, yet 1 is returned | -1 when the budget runs out before the domain is uniform | not executed; high | Automaton.MajorityAsWrittenCounterexample | Automaton.Automaton1D.Majority |
| gameoflife.cpp:54 | the survival test reads `board[0][0]` for every cell (also lines 74, 93, 113, 133, 152 and 171) | 3 x 3 board `[[0,1,0],[0,1,1],[0,0,0]]`: cell (0, 1) is alive with 2 neighbours and dies | survival reads the cell itself | not executed; high | Life.AsWrittenSurvivalCounterexample | Life.GameOfLife.Step |
| gameoflife.cpp:172 | the lower-right block writes `nextBoard[rows - 1][0]` | 3 x 3 board `[[0,0,0],[0,1,1],[0,1,0]]`: cell (2, 2) has 3 neighbours and stays dead | write `nextBoard[rows - 1][cols - 1]` | not executed; high | Life.AsWrittenCornerCounterexample | Life.GameOfLife.Step |
| gameoflife.cpp:100-101 | the middle rows loop over columns 1 to `cols - 2` only, and no block handles their first and last columns | 3 x 3 board with the left column alive: cell (1, 0) has 2 neighbours and dies | every cell of every row is computed | not executed; high | Life.AsWrittenEdgeCounterexample | Life.GameOfLife.Step |
| geneticsolver.cpp:127-128 | the walk adds `fitnessVals[index]` before incrementing, so member 0 is counted twice and the index can pass the end | fitness `[0, 1]`, roll 0.5: the walk ends at index 2 of a 2-member population | the first member whose cumulative fitness reaches the roll, here 1 | not executed; high | GeneticOps.RouletteAsWrittenOverruns | Genetic.GeneticAlgorithm.Roulette |
| geneticsolver.cpp:133 | the second parent's walk assigns `indexParent1`, so `indexParent2` is never set | members `"a"`, `"b"` of fitness 1, rolls 0 and 1.5, no crossover: the child is `"b"` instead of `"a"` | the second walk selects `indexParent2` | not executed; high | Genetic.AsWrittenSecondRollWins | Genetic.GeneticAlgorithm.BreedChild |
| geneticsolver.cpp:110 | `int index;` is declared once before the loop over offspring and is never set to 0, neither before the first offspring nor between offspring | two members of two symbols, no crossover, `index` starting at 0: offspring 0 gets positions 0 and 1, offspring 1 none | `index = 0` at the start of each offspring | not executed; high | GeneticOps.LaterOffspringUnwritten | Genetic.GeneticAlgorithm.Children |
| geneticsolver.cpp:194 | `actions[rng::genRandInt(0, numActions)]`, an inclusive upper bound | a raw draw of `numActions` selects index `numActions`, past the last action | draw from `[0, numActions - 1]` | not executed; high | GeneticOps.InclusiveActionDraw | Genetic.GeneticAlgorithm.MutateMember |

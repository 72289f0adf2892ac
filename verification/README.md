# Portfolio optimisation by evolution: the selection engine and the generation bookkeeping

The repository optimises Markowitz portfolios with two evolutionary algorithms that share one
skeleton: a population of weight vectors is bred (single-point crossover, then mutation) and the
merged pool is cut back to `populationSize` survivors, once per generation.

- `NSGAII/NSGAII.java` selects survivors by Pareto rank on two objectives: `fastNonDominatedSort`
  peels the pool into fronts, and `selectNextGeneration` takes whole fronts while they fit, then
  cuts the first front that overflows after sorting it by crowding distance.
- `GeneticAlgorithm/GeneticAlgorithm.java` sorts the pool by descending scalar score and keeps a
  prefix.

This Dafny project models that combinatorial core and proves its contracts. It has these modules:

| file | module | models |
|---|---|---|
| `wrappers.dfy` | `Wrappers` | `Result`/`Option`; the two Java exceptions the core can raise |
| `seqs.dfy` | `Seqs` | flattening a list of fronts, distinctness, multiset facts |
| `pareto.dfy` | `Pareto` | individuals, objective pairs, `dominates` |
| `nondominated_sort.dfy` | `NonDominatedSort` | `fastNonDominatedSort`, as a recursive definition and as the Java loops |
| `sorting.dfy` | `Sorting` | `Collections.sort` with a one-key comparator: a stable ascending sort |
| `pareto_selection.dfy` | `ParetoSelection` | NSGA-II `selectNextGeneration` |
| `scalar_selection.dfy` | `ScalarSelection` | genetic-algorithm `selectNextGeneration` |
| `variation.dfy` | `Variation` | `crossover`, the gene-reset loop of `mutate`, `createOffspring` |
| `evolution.dfy` | `Evolution` | `optimize` of both algorithms, one generation at a time |

Modelling choices:

- An individual in the selection engine is its position in the pool (`Id = nat`). Java's
  `removeAll` compares `double[]` by reference, so two portfolios with equal weights stay two
  individuals. The orchestrator maps the chosen positions back to genomes.
- The objectives come from an opaque `fit: Id -> Objectives`, a pair of reals. The model only
  compares them with `<=` and `<`, as `dominates` does.
- The crowding distance and `fitnessScore` are opaque real-valued keys. The NSGA-II front cut is
  sorted ascending by crowding distance, as the code does. The genetic algorithm's comparator
  `Double.compare(fitnessScore(b), fitnessScore(a))` is an ascending sort on the negated score.
- `java.util.Random` becomes explicit draws. A `PairDraw` holds, for one iteration of
  `createOffspring`: the two parent indices, the crossover flag, the cut point and the gene resets
  of each child.
- Exceptions become `Result` errors:
  - `fronts.get(i)` past the last front and `subList` past the end of the pool give `IndexOutOfBounds`;
  - `nextInt(0)` on genomes without genes gives `IllegalArgument`.

NSGA-II `selectNextGeneration` fails whenever the pool has at most `populationSize` members: the
accumulation loop takes every front and reads one past the last (NSGAII/NSGAII.java:105). In
`optimize` the merged pool has at least `2 * populationSize` members, so this happens only for
`populationSize == 0` with at least one generation. `Evolution.Optimize` states that case as an
error.

## Model

| member | source | states |
|---|---|---|
| `Pareto.DominatesIrreflexive` | NSGAII/NSGAII.java:154-159 | no objective pair dominates itself, so comparing an individual with itself in the inner loops never marks it dominated |
| `Pareto.DominatesAsymmetric` | NSGAII/NSGAII.java:154-159 | two individuals never dominate each other |
| `Pareto.DominatesTransitive` | NSGAII/NSGAII.java:154-159 | dominance is transitive, so with the two lemmas above it is a strict partial order |
| `Pareto.EqualObjectivesNeverDominate` | NSGAII/NSGAII.java:157-158 | individuals with equal objectives never dominate one another |
| `Pareto.NonDominatedExists` | NSGAII/NSGAII.java:134-150 | every non-empty list has a member that no member dominates, so each round of the `while` loop finds a non-empty front |
| `Pareto.UndominatedDominatorExists` | NSGAII/NSGAII.java:134-150 | a dominated member of a list is dominated by some member that nothing in the list dominates |
| `NonDominatedSort.KeepUndominatedMembers` | NSGAII/NSGAII.java:119-130 | the outer loop keeps exactly the members that no reference member dominates |
| `NonDominatedSort.Front` | NSGAII/NSGAII.java:118-130 | a front holds exactly the members that no member of the same list dominates, and it is non-empty when the list is |
| `NonDominatedSort.RemoveAll` | NSGAII/NSGAII.java:132-133 | `removeAll` keeps exactly the members not in the front |
| `NonDominatedSort.SplitByFront` | NSGAII/NSGAII.java:132-133 | the front and what `removeAll` leaves together hold every occurrence of the list exactly once |
| `NonDominatedSort.FastNonDominatedSort` | NSGAII/NSGAII.java:116-152 | at least one front is returned, because front 0 is added even for an empty pool |
| `NonDominatedSort.FirstFrontUndominated` | NSGAII/NSGAII.java:118-131 | front 0 is exactly the pool members that no pool member dominates |
| `NonDominatedSort.FrontIsUndominatedRemainder` | NSGAII/NSGAII.java:134-150 | front k is exactly the members of fronts k, k+1, … (the `remaining` list) that none of them dominates |
| `NonDominatedSort.PeelNonEmpty` | NSGAII/NSGAII.java:134-150 | every front peeled from a non-empty `remaining` list is non-empty |
| `NonDominatedSort.FrontsNonEmpty` | NSGAII/NSGAII.java:131-150 | every front is non-empty if and only if the pool is non-empty; an empty pool gives one empty front |
| `NonDominatedSort.FrontsPartitionPool` | NSGAII/NSGAII.java:116-152 | the fronts, concatenated, are a permutation of the pool |
| `NonDominatedSort.FrontsDisjoint` | NSGAII/NSGAII.java:116-152 | no individual lies in two fronts |
| `NonDominatedSort.EveryMemberHasFront` | NSGAII/NSGAII.java:116-152 | every pool member lies in some front |
| `NonDominatedSort.LaterFrontsDoNotDominate` | NSGAII/NSGAII.java:116-152 | no member of a later front dominates a member of an earlier front |
| `NonDominatedSort.DominatedByPreviousFront` | NSGAII/NSGAII.java:134-150 | every member of front k+1 is dominated by some member of front k |
| `NonDominatedSort.IdenticalObjectivesSingleFront` | NSGAII/NSGAII.java:116-152 | when all members share one objective pair, the only front is the pool itself, in pool order |
| `NonDominatedSort.KeepUndominatedSnoc` | NSGAII/NSGAII.java:119-130 | one more iteration of the outer loop appends the individual exactly when nothing dominates it |
| `NonDominatedSort.IsDominated` | NSGAII/NSGAII.java:120-126 | the inner loop with its early `break` reports whether some member dominates the individual |
| `NonDominatedSort.FrontLoop` | NSGAII/NSGAII.java:118-130 | the two nested loops compute the front |
| `NonDominatedSort.FastNonDominatedSortLoops` | NSGAII/NSGAII.java:116-152 | the loops of `fastNonDominatedSort` compute the recursive definition of the fronts, including termination of the `while` loop |
| `Sorting.InsertBy` | NSGAII/NSGAII.java:110-111 | insertion adds the element to the multiset, and the head is the new element or the old head |
| `Sorting.InsertBySorted` | NSGAII/NSGAII.java:110-111 | inserting into a sorted list keeps it sorted |
| `Sorting.SortBy` | NSGAII/NSGAII.java:110-111 | the sort's result is in ascending key order and is a permutation of its input |
| `Sorting.SortByStable` | NSGAII/NSGAII.java:110-111 | the sort is stable: elements with equal keys keep their input order |
| `Sorting.SortedPrefixBeforeSuffix` | NSGAII/NSGAII.java:110-112 | in a sorted list, no kept prefix element has a larger key than a dropped one |
| `ParetoSelection.Accumulate` | NSGAII/NSGAII.java:104-108 | the loop stops, at a valid front index, exactly when the fronts hold more than `populationSize` members; it then has taken whole fronts that fit, and the next front does not fit; otherwise it fails with `IndexOutOfBounds` |
| `ParetoSelection.CutIndex` | NSGAII/NSGAII.java:104-109 | the front the loop stops at exists and is the first that does not fit in full |
| `ParetoSelection.Truncate` | NSGAII/NSGAII.java:104-113 | the truncation succeeds exactly when the fronts hold more than `populationSize` members, and then returns `populationSize` of them |
| `ParetoSelection.SelectNextGeneration` | NSGAII/NSGAII.java:101-114 | selection succeeds exactly when the pool is larger than `populationSize` and otherwise fails with `IndexOutOfBounds`; it returns exactly `populationSize` members, each occurrence drawn from the pool |
| `ParetoSelection.FrontsSize` | NSGAII/NSGAII.java:103 | the fronts hold as many members as the pool |
| `ParetoSelection.TruncateShape` | NSGAII/NSGAII.java:104-112 | the truncation is fronts 0..i-1 followed by a prefix of front i sorted by key |
| `ParetoSelection.NextGenerationShape` | NSGAII/NSGAII.java:101-114 | the next generation is fronts 0..i-1 followed by the lowest-crowding-key prefix of front i, with i the first front that does not fit |
| `ParetoSelection.PrefixMemberFront` | NSGAII/NSGAII.java:104-108 | a member of front a is among fronts 0..i-1 exactly when a < i |
| `ParetoSelection.PrefixOfFrontsKeepsBetter` | NSGAII/NSGAII.java:104-112 | keeping fronts 0..i-1 and a sorted prefix of front i never keeps a member of a worse front than a dropped one |
| `ParetoSelection.KeptBeforeDropped` | NSGAII/NSGAII.java:101-114 | a survivor never lies in a later front than a dropped individual; in the same front its crowding key is no larger |
| `ParetoSelection.NextGenerationDistinct` | NSGAII/NSGAII.java:101-114 | the next generation holds no individual twice |
| `ScalarSelection.SelectNextGeneration` | GeneticAlgorithm/GeneticAlgorithm.java:101-104 | selection succeeds exactly when the pool has at least `populationSize` members, otherwise `IndexOutOfBounds`; it returns exactly `populationSize` members drawn from the pool, in non-increasing score order, and no dropped member scores higher than a kept one |
| `ScalarSelection.SortedPrefixFacts` | GeneticAlgorithm/GeneticAlgorithm.java:102-103 | a prefix of a list sorted by descending score is in non-increasing order and scores no lower than the rest |
| `ScalarSelection.TiesKeepPoolOrder` | GeneticAlgorithm/GeneticAlgorithm.java:102 | individuals with equal scores keep their pool order after the sort |
| `ScalarSelection.SurvivorsDistinct` | GeneticAlgorithm/GeneticAlgorithm.java:101-104 | the survivors hold no individual twice when the pool does not |
| `Variation.Crossover` | NSGAII/NSGAII.java:65-83 | with the flag set the children are `p1[..k] + p2[k..]` and `p2[..k] + p1[k..]`; without it they equal the parents; lengths are kept; zero-length parents with the flag set raise `IllegalArgument` |
| `Variation.CrossoverKeepsGenesInPlace` | NSGAII/NSGAII.java:65-83 | at every position the two children hold the two parents' genes |
| `Variation.CrossoverInvolution` | NSGAII/NSGAII.java:65-83 | crossing the children again at the same cut gives back the parents |
| `Variation.CrossoverPreservesGenePool` | NSGAII/NSGAII.java:65-83 | the children together hold exactly the parents' genes |
| `Variation.CrossoverArrays` | GeneticAlgorithm/GeneticAlgorithm.java:65-83 | the array loops and `arraycopy` build the children described by `Crossover`, writing only the fresh child arrays |
| `Variation.ResetGenes` | GeneticAlgorithm/GeneticAlgorithm.java:86-90 | the genome after the reset loop: one gene per asset, each replaced by its fresh draw when one was made and kept otherwise; `ResetGenesInPlace` shows the Java loop computes it |
| `Variation.ResetGenesInPlace` | GeneticAlgorithm/GeneticAlgorithm.java:86-90 | the in-place loop over the genome array leaves it holding `ResetGenes` of its previous contents |
| `Variation.NoResetKeepsGenome` | GeneticAlgorithm/GeneticAlgorithm.java:86-90 | with no reset drawn, the genome is unchanged |
| `Variation.Mutate` | GeneticAlgorithm/GeneticAlgorithm.java:85-99 | mutation keeps the number of genes |
| `Variation.UniformMembers` | GeneticAlgorithm/GeneticAlgorithm.java:29-31 | individuals chosen from the population and the offspring still have one weight per asset |
| `Variation.Breed` | NSGAII/NSGAII.java:55-61 | each draw yields two children, each with one weight per asset; breeding fails exactly when a crossover meets genomes without genes |
| `Variation.CreateOffspring` | GeneticAlgorithm/GeneticAlgorithm.java:53-63 | `createOffspring` yields an even number of children, 2·⌈populationSize/2⌉: between `populationSize` and `populationSize + 1` |
| `Evolution.ParetoSurvivors` | NSGAII/NSGAII.java:31 | NSGA-II survivor selection on genomes succeeds exactly when the pool is larger than `populationSize`, and returns that many pool members |
| `Evolution.SelectSurvivors` | GeneticAlgorithm/GeneticAlgorithm.java:31 | survivor selection by either strategy returns `populationSize` pool members; only the failure condition differs between the two |
| `Evolution.MergedPoolExceedsPopulation` | GeneticAlgorithm/GeneticAlgorithm.java:29-30 | the merged pool has at least twice `populationSize` members, so more than `populationSize` when that is positive |
| `Evolution.Generation` | NSGAII/NSGAII.java:29-31 | a generation keeps the population size and the genome length, and fails only on gene-less crossover or, for NSGA-II, on an empty population |
| `Evolution.RunSucceedsStep` | NSGAII/NSGAII.java:28-32 | a run of generations succeeds exactly when its first generation and the remaining run do |
| `Evolution.Run` | GeneticAlgorithm/GeneticAlgorithm.java:28-33 | the remaining generations, stopping at the first failure: the run succeeds exactly when no generation's crossover meets gene-less genomes and, unless no generation runs, the strategy is scalar or the population non-empty; every result has `populationSize` genomes of `numAssets` weights, and with no generation left the population is returned unchanged |
| `Evolution.Optimize` | GeneticAlgorithm/GeneticAlgorithm.java:26-34 | the loop returns the population after `maxGenerations` generations, as `Run` defines it. After every generation the population has `populationSize` genomes of `numAssets` weights. With `maxGenerations` 0 the initial population is returned. With genes present the run always succeeds, except NSGA-II with an empty population |

## Left out

- The crowding distance formula (NSGAII/NSGAII.java:161-184) is left out. It is floating-point arithmetic that can divide by zero, and it sums over all fronts. The model uses only the order it induces, through an opaque key (but see the next line). The ascending sort of the code is kept.
- ParetoSelection.SelectNextGeneration: sorts the cut front by a key fixed before the sort. In `NSGAII.java`, `crowdingDistance` reads all fronts, including the front that `Collections.sort` is permuting in place (NSGAII/NSGAII.java:110-111). For fronts of 32 or more members, TimSort compares while that backing array is mid-merge, so the key can change during the sort, and the sort can then throw `IllegalArgumentException`. The model idealises the key as fixed and does not model that exception.
- `fitnessScore` (GeneticAlgorithm/GeneticAlgorithm.java:106-109) and the Markowitz `fitness`/`isFeasible` functions are opaque parameters. They are floating-point portfolio arithmetic.
- `initializePopulation` is left out because it is random draws plus floating-point renormalisation. The initial population is a parameter of `Evolution.Optimize`, required to have `populationSize` genomes of `numAssets` weights.
- Variation.Mutate: only states that mutation keeps the length. The renormalising division by the gene sum, which can be zero, is an opaque length-preserving parameter. Its effect on the weights is not modelled.
- `java.util.Random` is not modelled. Its results are explicit draws: parent indices below `populationSize`, a cut point below the genome length, and gene resets in `[0, 1)`, the ranges `nextInt` and `nextDouble` produce.
- NaN, infinities and negative zero in objectives or scores are not modelled. Objectives and keys are exact reals, so `Double.compare` is the ordering of the reals.
- 32-bit `int` is not modelled. Sizes and counters are unbounded naturals, so the overflow of `i += 2` near 2^31 in `createOffspring` is absent. Negative `populationSize` or `maxGenerations` cannot be expressed.
- Variation.Crossover: requires parents of equal length, which every population here has. `crossover` does not check lengths: when `parent2` is shorter, the crossover loop reads past its end and throws; when `parent1` is shorter, the cut point is drawn below `parent1`'s length, `child2` has `parent2`'s length, and its tail past `parent1`'s length stays zero-filled (NSGAII/NSGAII.java:66-77). Neither case is modelled.
- Both `main.java` files are console printing and demo data, and are not part of this model.

# Tire-design evolution loop, modelled in Dafny

The system evolves wheel tread designs for a small wheeled robot. Each
design is a chromosome of five genes:

- outer radius
- axial width
- tread count (kept a whole number)
- tread width
- tread depth

One cycle of the loop has three parts:

1. **Race.** A physics simulation races ten robots, one per design.
   - It records the step at which each robot first reaches the finish line
     at local x = -10, and where each robot ends up.
   - It ranks the robots "like a race" and writes the ranked ledger
     `fitness_results.json`.
2. **Generation step.** The genetic algorithm reads that ledger.
   - It selects the env ids of the two best-ranked records as parents and
     looks up their chromosomes.
   - It breeds ten children by single-point crossover and per-gene Gaussian
     mutation, overwrites `chromosomes.json`, and increments the counter in
     `current_generation.json`.
3. **Progress summary.** A small script reads the history of ledgers.
   - For each of the first twenty generations, it extracts the finish step
     and distance of the best robot, to be plotted.

The project models these three parts:

| file | module | models |
|---|---|---|
| `numbers.dfy` | `Numbers` | Python's `int(round(x))`, which rounds half to even |
| `ordering.dfy` | `Ordering` | Python's stable `sorted` with a key, as a stable insertion sort; `min` with a key, as the first index of least key; facts about both |
| `fitness.dfy` | `Fitness` | the ledger record shared by all three parts |
| `race.dfy` | `Race` | the finish/position tracking loop, the race ranking and the ledger |
| `genetic_algorithm.dfy` | `GeneticAlgorithm` | selection, parent lookup, crossover, mutation, the offspring loop and the generation counter |
| `results_visual.dfy` | `ResultsVisual` | the best-per-generation loop |
| `pipeline.dfy` | `Pipeline` | the two parts meeting: the ledger the race writes chooses the race leaders as parents |

Random values enter the model as parameters:

- one crossover point per child;
- per gene, the value of `random.random()` (the gene mutates when the
  value is below 0.2);
- per gene, the noise value drawn by `np.random.normal`.

The simulation enters as a trace. `trace[step][env]` is the local x of robot
`env` at that step.

The JSON files of the generation step are the fields of the class
`GeneticAlgorithm.CycleUpdates`. A ghost write log records which files are
written, and in what order.

Python's `round` rounds half to even (6.5 becomes 6), and
`Numbers.RoundHalfEven` does the same.

The comment at sim_launch_test1.py:144 says non-finishers are ordered "by
farthest distance". The code sorts them by greatest final x, and the model
follows the code. The robots drive towards negative x, so the least-advanced
non-finisher comes first. `Race.Ahead` states the order the code produces.

## Model

| member | source | states |
|---|---|---|
| Numbers.RoundHalfEven | genetic_algorithm.py:59 | the result is within 0.5 of x, and is even when x lies exactly halfway between two integers |
| Numbers.RoundHalfEvenUnique | genetic_algorithm.py:59 | any integer within 0.5 of x that is even on a tie is the rounded value, so the contract above determines the rounding |
| Numbers.RoundIntegral | genetic_algorithm.py:85 | rounding a whole number gives the same number back |
| Numbers.RoundIdempotent | genetic_algorithm.py:81-85 | rounding twice gives the same as rounding once |
| Numbers.RoundAtLeast | genetic_algorithm.py:70-74 | rounding a value of at least an integer bound stays at least that bound, so a clamped tread count rounds to at least 1 |
| Ordering.Sort | genetic_algorithm.py:22-25 | the sort is a permutation of its input |
| Ordering.SortIsSorted | genetic_algorithm.py:22-25 | the sort's output is in non-decreasing key order |
| Ordering.SortOfSorted | genetic_algorithm.py:22-25 | sorting a list that is already in key order leaves it unchanged |
| Ordering.SortStable | sim_launch_test1.py:142-145 | records with equal keys keep their input order: a list whose tags increase sorts into key order, ties broken by tag |
| Ordering.FirstMin | results_visual.py:18 | the index of a least key, with every earlier key strictly greater (the first minimum) |
| Ordering.SortHeadIsFirstMin | genetic_algorithm.py:31 | the first record of the sort is the first record of least key |
| Ordering.SortTailRemovesFirstMin | genetic_algorithm.py:31-32 | the rest of the sort is the sort of the input without that record |
| Ordering.SortSecond | genetic_algorithm.py:32 | the second record of the sort is the first record of least key among the others |
| Ordering.SortFirstTwo | genetic_algorithm.py:22-32 | the first two records of the sort are distinct input positions i and j: i the first least-key record, j the first least-key record apart from i |
| Ordering.TagsSort | sim_launch_test1.py:142-145 | sorting keeps the multiset of tags |
| Ordering.TagsAppend | sim_launch_test1.py:147 | the tags of a concatenation are the concatenated tags |
| GeneticAlgorithm.Ranked | genetic_algorithm.py:23 | the filter keeps exactly the records that carry a rank |
| GeneticAlgorithm.RankedAppend | genetic_algorithm.py:23 | the filter keeps the ledger's order and its repeated records: filtering a concatenation joins the filtered parts, so `Ranked` is exactly the ranked records in ledger order |
| GeneticAlgorithm.SelectParents | genetic_algorithm.py:22-32 | aborts with InsufficientRankedResults exactly when fewer than two records carry a rank |
| GeneticAlgorithm.SelectParentsAreTopTwo | genetic_algorithm.py:22-32 | parent 1 is the env id of the first ranked record of least rank; parent 2 is the first of least rank among the other ranked records (stable sort by rank) |
| GeneticAlgorithm.LookupParent | genetic_algorithm.py:43-44 | returns the chromosome at the env id when the id is in range, and the IndexError path otherwise |
| GeneticAlgorithm.Drop | genetic_algorithm.py:55 | Python's slice `p2[k:]`: the elements from k on, or empty when k passes the end |
| GeneticAlgorithm.Crossover | genetic_algorithm.py:52-61 | the child has k genes from p1 plus the genes of p2 from k on |
| GeneticAlgorithm.CrossoverGenes | genetic_algorithm.py:54-59 | genes before the point come from p1 and the rest from p2, except the tread count, which is the half-even rounding of its source parent's gene and is whole; the child is as long as p2 |
| GeneticAlgorithm.AtLeastOne | genetic_algorithm.py:70 | `max(1, v)`: at least 1 and at least v, and equal to one of them |
| GeneticAlgorithm.MutatedGene | genetic_algorithm.py:68-74 | an untriggered gene is unchanged; a triggered gene is `max(1, g + noise)`, rounded half to even at the tread count, so it is at least 1 |
| GeneticAlgorithm.Mutation | genetic_algorithm.py:63-76 | mutation keeps the chromosome's length |
| GeneticAlgorithm.MutationGenes | genetic_algorithm.py:65-74 | untriggered genes are kept and triggered genes are at least 1; a triggered tread count is whole, and a whole tread count stays whole |
| GeneticAlgorithm.Mutate | genetic_algorithm.py:63-76 | the in-place loop over the copied list computes exactly the gene-by-gene mutation |
| GeneticAlgorithm.Offspring | genetic_algorithm.py:81-85 | a child has one gene per draw |
| GeneticAlgorithm.NextPopulation | genetic_algorithm.py:79-87 | the ten children of the same two parents, child i from draw set i; NextPopulationWellFormed and BreedOffspring state its shape and that the loop builds it |
| GeneticAlgorithm.OffspringGenes | genetic_algorithm.py:79-87 | a child's tread count is whole; triggered genes are at least 1; every other untriggered gene is the gene of the parent on its side of the crossover point |
| GeneticAlgorithm.FinalRoundingIsNoOp | genetic_algorithm.py:81-85 | the second rounding of the tread count changes nothing, because crossover and mutation already leave it whole |
| GeneticAlgorithm.OffspringValid | genetic_algorithm.py:79-87 | children of parents with five positive genes and a whole tread count have the same shape |
| GeneticAlgorithm.ChildWellFormed | genetic_algorithm.py:81-85 | children of parents with five non-negative genes have five non-negative genes and a whole tread count |
| GeneticAlgorithm.NextPopulationWellFormed | genetic_algorithm.py:79-87 | the new population has exactly ten children, all well-formed with a whole tread count, and all valid when the parents are |
| GeneticAlgorithm.BreedOffspring | genetic_algorithm.py:79-87 | the append loop builds the ten children of the same two parents, in order, one per set of draws |
| GeneticAlgorithm.BreedChild | genetic_algorithm.py:81-85 | the loop body computes crossover, then mutation, then the final rounding |
| GeneticAlgorithm.StoredGeneration | genetic_algorithm.py:101-106 | the current generation is the stored value, or 0 when the file is missing or has no "generation" key |
| GeneticAlgorithm.CycleUpdates.constructor | genetic_algorithm.py:13-14 | the three files start with the given contents, and nothing has been written yet; it stands for the loads of the ledger (lines 13-14), of the chromosomes (lines 40-41) and of the generation file (lines 101-106) |
| GeneticAlgorithm.CycleUpdates.UpdateGenerationCounter | genetic_algorithm.py:101-110 | writes the stored generation plus one; the chromosomes and the ledger are unchanged |
| GeneticAlgorithm.CycleUpdates.RunGeneration | genetic_algorithm.py:22-110 | with fewer than two ranked records the step aborts with InsufficientRankedResults, and with a parent id out of range with ParentIndexOutOfRange; either abort writes nothing; otherwise the chromosomes file becomes the ten children of the selected parents, all well-formed again, and then the counter is advanced |
| Race.TrackRace | sim_launch_test1.py:96-122 | each robot's finish step is the first step at or past the line, or None if it never gets there; its final x is its position at the last step |
| Race.FinishersRows | sim_launch_test1.py:135-136 | the finisher rows are the envs with a finish step, carrying that step and their final x, in env order |
| Race.NonFinishersRows | sim_launch_test1.py:138-139 | the non-finisher rows are the envs without a finish step, carrying their final x, in env order |
| Race.FinishersFrom | sim_launch_test1.py:135-136 | the finishers comprehension; FinishersRows and CountFromOnce state that it holds exactly the finishing envs, once each, in env order, with their step and final x |
| Race.UnfinishedFrom | sim_launch_test1.py:138-139 | the non-finishers comprehension; NonFinishersRows and CountFromOnce state that it holds exactly the other envs, once each, in env order, with their final x |
| Race.FinalRanking | sim_launch_test1.py:142-147 | the sorted finishers followed by the sorted non-finishers; RankingInRaceOrder, RankingCoversEachEnvOnce and RankingAgreesWithTracking state its order, that it has each env once, and its row contents |
| Race.CountFromOnce | sim_launch_test1.py:135-139 | every env is in exactly one of the two lists, exactly once |
| Race.PartsCoverEnvs | sim_launch_test1.py:135-139 | the env ids of the two lists together are 0..n-1, each once |
| Race.RankingTags | sim_launch_test1.py:142-147 | the ranking has the env ids of the two lists |
| Race.RankingCoversEachEnvOnce | sim_launch_test1.py:135-147 | the ranking has one row per env: its env ids are 0..n-1, each exactly once |
| Race.SortedFinishers | sim_launch_test1.py:142 | the sorted finishers are all finishers, ordered by finish step with ties in env order |
| Race.SortedNonFinishers | sim_launch_test1.py:145 | the sorted non-finishers are all non-finishers, ordered by greatest final x with ties in env order |
| Race.RaceOrderOfParts | sim_launch_test1.py:147 | sorted finishers followed by sorted non-finishers are in race order |
| Race.RankingInRaceOrder | sim_launch_test1.py:141-147 | each row is ahead of every later row: finishers first, by finish step; then non-finishers, by greatest x; ties by env id |
| Race.RankingAgreesWithTracking | sim_launch_test1.py:135-147 | each row carries its env's recorded final x, and is a finisher row exactly when the env has a finish step, with that step |
| Race.Ledger | sim_launch_test1.py:160-179 | the ledger has one record per ranking row |
| Race.BuildLedger | sim_launch_test1.py:160-179 | record i has rank i+1 and the env id and distance of row i; it is finished exactly when the row is a finisher, and exactly when it has a finish step |
| Race.LedgerEnvs | sim_launch_test1.py:164-173 | the ledger's env ids are the ranking's, in order |
| Race.RowAgreesWithTrace | sim_launch_test1.py:164-178 | a record built from a tracked row matches the trace |
| Race.LedgerAgreesWithTrace | sim_launch_test1.py:160-179 | every ledger record built from tracked rows states its robot's first crossing and last position as the trace shows them |
| Race.LedgerInRaceOrder | sim_launch_test1.py:160-179 | a ranking in race order gives a ledger in race order: finished records first by finish step, then unfinished ones by greatest distance, ties by env id |
| Race.RaceLedger | sim_launch_test1.py:96-179 | the ledger has ten records with ranks 1..10 in order and env ids 0..9, each once; every record states its robot's first crossing step (or none) and final x as the trace shows them; and every record is ahead of every later one in race order |
| ResultsVisual.Candidates | results_visual.py:16 | keeps exactly the records that finished and have a finish step |
| ResultsVisual.Best | results_visual.py:16-18 | None exactly when no record is a candidate; otherwise a candidate of the generation whose finish step is least among all candidates |
| ResultsVisual.FirstMinOfCandidates | results_visual.py:16-18 | the first least candidate sits at a ledger position with every earlier candidate finishing strictly later |
| ResultsVisual.BestIsEarliestLeast | results_visual.py:18 | on a tie the best record is the earliest one in the ledger |
| ResultsVisual.Summarize | results_visual.py:9-23 | produces min(history length, 20) entries; entry i holds history[i]'s generation number and, from its best record, the finish step and the distance, or None twice when nothing finished |
| Pipeline.RankedOfFullyRanked | genetic_algorithm.py:23 | when every record carries a rank, the rank filter keeps the whole ledger |
| Pipeline.LedgerRankAt | sim_launch_test1.py:161-165 | the ledger record at position i has rank i+1 |
| Pipeline.LedgerInRankOrder | genetic_algorithm.py:22-25 | the ledger the race writes is already in rank order, so selection's sort leaves it unchanged |
| Pipeline.ParentsOfLedger | genetic_algorithm.py:22-32 | from the race's ledger, the parents are the first two rows of the ranking; with fewer than two rows the step aborts |
| Pipeline.ParentsLeadTheRace | genetic_algorithm.py:22-32 | over a whole race, parent 1 is ahead of every other robot, and parent 2 is ahead of every robot but parent 1 |

## Left out

- Physics: the simulated scene, robot loading, joint gains and RPM reporting (sim_launch_test1.py:1-92), and inside the step loop the velocity control, the position read and the scene step (sim_launch_test1.py:103-105, 114-117, 131). They run in an external physics engine. The position trace replaces them: its entry for a step and robot is the local x that lines 114-117 compute.
- The progress printing of the generation step (genetic_algorithm.py:16, 28, 34-35, 46-47, 88, 96, 112-113). Printing has no effect on the model's state.
- The progress printing in the race loop and its final table (sim_launch_test1.py:107-111, 124-129, 149-157). Printing has no effect on the model's state.
- Plotting (results_visual.py:25-37). It calls into matplotlib.
- JSON reading and writing. The files are values, or fields of `GeneticAlgorithm.CycleUpdates`. The model keeps only which files are written and in what order.
- The random distributions. `random.randint`, `random.random` and `np.random.normal` become parameters, and the model only requires their ranges.
- Floating point. Genes, positions and distances are exact reals, so there is no NaN, no infinity and no rounding error.
- tire_designer.py: CAD geometry and STL export through a foreign library. tire_designer.py is not part of this model.
- launch_pipeline.py: process orchestration only. launch_pipeline.py is not part of this model.
- GeneticAlgorithm.CycleUpdates.RunGeneration: requires ranked env ids to be non-negative. Python would wrap a negative id around, counting from the end of the list, and the model does not.
- GeneticAlgorithm.CycleUpdates.RunGeneration: requires every stored chromosome to have five non-negative genes: the five genes tire_designer.py:30 unpacks. Non-negativity is the model's own condition for numpy's noise scale (genetic_algorithm.py:69). The script itself runs with parents of any length of at least 3, and with negative genes whose draw does not trigger. Its three failure paths on other shapes are not modelled:
  - a first parent shorter than 2 makes `random.randint(1, 0)` raise ValueError at genetic_algorithm.py:54;
  - a child shorter than 3 raises IndexError at genetic_algorithm.py:59;
  - a negative gene whose draw triggers makes numpy raise at genetic_algorithm.py:69.
- GeneticAlgorithm.Mutate: requires a triggered gene to be non-negative. numpy raises an error for a negative noise scale, and the model does not represent that failure.
- GeneticAlgorithm.Crossover: requires a crossover point in [1, len(p1) - 1], so it requires the first parent to have at least 2 genes; with fewer, `random.randint(1, 0)` raises ValueError at line 54. It also requires the child to reach index 2. A shorter child makes Python raise IndexError at line 59, and the model does not represent that failure.
- The mutation noise scale, `0.15 * gene` (genetic_algorithm.py:69). The noise value is a free parameter, so its dependence on the gene is not modelled.
- The process exit code of the abort (genetic_algorithm.py:27-29). It is modelled as the error value InsufficientRankedResults.

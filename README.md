# goga core, modelled in Dafny

This project models the core of goga, a genetic-algorithm library written in
Go: the byte-cell `Bitset`, the `genome` record that wraps it, the
recombination operators and the probability-chained mater, the generational
engine `GeneticAlgorithm` (run sequentially), and the stability exit rule of
the function optimizer's simulator.

Modules, one per source file, plus two helper modules (`Crossover`, `StableSorts`):

- `Bitsets` (bitset.dfy): `Bitset` is a class over an `array<Byte>` with an
  offset and a length, which is what a Go slice is, plus the separate `size`
  field that bounds `Get` and `Set`. `Slice` hands out a second `Bitset` over
  the same array, so writes through it are seen by the parent. Cells are
  `Wrap(v) = v % 256`, which is Go's `byte(v)` also for negative `v`.
- `Genomes` (genome.dfy): `Genome` is a class with `fitness` and `origin`
  (as `real`, since the engine only compares and sums them) and the bitset
  struct held by value. Building a genome copies the size and slice header
  only, so a genome shares its cells with the bitset it was built from.
- `Crossover` (crossover.dfy): the cell-level meaning of each operator as
  functions of the parents' cells and the random draws. All crossovers are one
  `Exchange` of the overlapping prefix under a swap mask.
- `Maters` (mater.dfy): the operators as the index loops of the source, which
  fill freshly created bitsets through `Set`. Each is proved to produce the
  cells `Crossover` defines. Also `NullMater`, and `Mater` with its chain of
  (probability, operator, useElite) entries. The chain is proved against
  `ChainCells`.
- `StableSorts` (stable_sort.dfy): the result `sort.SliceStable` promises for
  the engine's "greater fitness first" comparison. This is a stable descending
  insertion sort, proved to be a permutation, descending and stable.
- `GeneticAlgorithms` (engine.dfy): option handling, population creation,
  the total-fitness sum, elite selection, exit dispatch, the mating loop with
  its duplicate cache, survivor selection and the generation loop.
- `FunctionOptimizer` (function_optimizer.dfy): the `funcMaterSimulator`
  counters and hooks.

Randomness is explicit. `rand.Intn(n)` is `draw % n` of a raw `nat` draw, and
`rand.Float32()` is a `real` draw. The engine's collaborators are fixed
functions handed to its constructor:

- the k-th `BitsetCreate.Go` result;
- the score `Simulator.Simulate` gives to a bit pattern;
- the index the d-th `Selector.Go` call returns;
- the children of the t-th `Mater.Go` call;
- `Simulator.ExitFunc`, given the elites shown so far.

In the engine, genomes are values (`Member`: cells, fitness, origin).

Where the code and its description disagree, the model follows the code:

- The crossovers' tail loops copy the longer parent's tail into the SHORTER
  child, where every `Set` fails. So the longer child's cells past the shorter
  length stay 0, and nothing is copied verbatim from the longer parent
  (`CrossoverTailIsZero`).
- `Init` never copies the random ratio, so it keeps Go's zero value.
  Survivor selection therefore keeps the whole top `populationSize` of the
  sorted pool, and no fresh random genomes are injected.
- The duplicate cache is created once per run, not once per generation. A
  pattern admitted in one generation is refused in every later one.
- `ExitFunc` returns true when `minIter < iter && stableIter < stableExitIter`.
  Past `minIter`, a call exits as soon as the fitness has changed within the
  last `stableExitIter` calls, and a long stable stretch keeps the run going
  (`ExitAfterRun`, `ChangeExitsPastMinIter`). This is modelled as written.

## Model

| member | source | states |
|---|---|---|
| `Bitsets.Wrap` | bitset.go:34-36 | the stored byte is congruent to the value modulo 256 and equals it when it is already in 0..255 |
| `Bitsets.Bitset.Empty` | bitset.go:61 | a zero-valued `Bitset{}` has size 0 and an empty slice |
| `Bitsets.Bitset.Alias` | genome.go:20-22 | copying the struct keeps its size and slice header, so the copy sees the same cells |
| `Bitsets.Bitset.Create` | bitset.go:10-13 | size becomes n, over a new array of n cells that are all 0 |
| `Bitsets.Bitset.GetSize` | bitset.go:16-18 | the size is the number of cells Get and Set reach |
| `Bitsets.Bitset.Get` | bitset.go:22-27 | below size it returns that cell; from size on it returns -1, and only then |
| `Bitsets.Bitset.GetAll` | bitset.go:30-32 | the whole slice, whose first size cells are the bitset's cells |
| `Bitsets.Bitset.SetImpl` | bitset.go:34-36 | cell i of the slice becomes byte(v) and every other array cell is unchanged |
| `Bitsets.Bitset.Set` | bitset.go:39-45 | succeeds iff i < size; then cell i becomes v mod 256 and the others stay; on failure nothing changes |
| `Bitsets.Bitset.SetAll` | bitset.go:48-52 | every one of the size cells becomes v mod 256; the size and every array cell outside them are unchanged |
| `Bitsets.Bitset.SetAllArr` | bitset.go:55-57 | the slice is replaced by the given array window and size is not updated |
| `Bitsets.Bitset.CreateCopy` | bitset.go:60-67 | a new bitset over a fresh array with the same size and the same cells |
| `Bitsets.Bitset.Slice` | bitset.go:71-76 | size n, over the parent's own array, cell j being the parent's slice cell start+j |
| `Bitsets.Bitset.View` | bitset.go:72-74 | a bitset of n cells whose slice is the parent's array from the parent's cell start on |
| `Bitsets.WriteToCopy` | bitset.go:60-67 | a write to a copy changes that copy's cell only and leaves the original unchanged |
| `Bitsets.WriteThroughSlice` | bitset.go:71-76 | a write through a slice changes the parent's cell start+j, and the slice still reads the parent's cells |
| `Genomes.Genome.constructor` | genome.go:20-22 | NewGenome starts with fitness 0 and origin 0, holding b's size and slice, and so b's cells |
| `Genomes.Genome.GetFitness` | genome.go:24-26 | the genome's fitness field |
| `Genomes.Genome.SetFitness` | genome.go:24-30 | GetFitness then returns x; origin and bits are outside its frame and unchanged |
| `Genomes.Genome.GetBits` | genome.go:32-34 | the genome's own bitset object, the one its field holds |
| `Genomes.Genome.GetOrigin` | genome.go:40-42 | the genome's origin field |
| `Genomes.Genome.SetOrigin` | genome.go:36-42 | GetOrigin then returns x; fitness and bits are outside its frame and unchanged |
| `Genomes.SetThroughGetBits` | genome.go:32-34 | Set through the pointer GetBits returns changes the genome's own cells |
| `Genomes.SharedWithSource` | genome.go:20-22 | a genome built from b shares b's array: a write through the genome is seen in b |
| `Crossover.Max` | mater.go:73-78 | the larger of the two arguments |
| `Crossover.Min` | mater.go:80-85 | the smaller of the two arguments |
| `Crossover.Intn` | mater.go:106 | a random index below a positive bound |
| `Crossover.Exchange` | mater.go:108-126 | each child has its own parent's length |
| `Crossover.ExchangeKeepsPairs` | mater.go:209-217 | below the overlap the children hold the parents' two cells, kept or swapped; past it, 0 |
| `Crossover.CrossoverTailIsZero` | mater.go:117-126 | the longer child's cells past the shorter parent's length are all 0 |
| `Crossover.ExchangeInvolution` | mater.go:108-126 | on equal-length parents, exchanging the children with the same mask gives back the parents |
| `Crossover.OnePointCut` | mater.go:106 | the one-point cut lies in [1, minSize-1] |
| `Crossover.OnePointCells` | mater.go:94-129 | the one-point children, each as long as its own parent |
| `Crossover.OnePointSplit` | mater.go:94-129 | cells before the cut are kept, cells in [cut, minSize) are swapped, the longer child's tail is 0 |
| `Crossover.Redraw` | mater.go:153-155 | the second cut is the first redraw that differs from the first cut, in [1, minSize-1] |
| `Crossover.RedrawDiffers` | mater.go:152-155 | when some redraw differs, the second cut differs from the first |
| `Crossover.TwoPointNeedsThree` | mater.go:150-155 | with minSize 2 every draw repeats the first cut, so the redraw loop never ends |
| `Crossover.TwoPointCuts` | mater.go:150-160 | the ordered cuts satisfy 1 <= lo < hi < minSize |
| `Crossover.TwoPointCells` | mater.go:138-187 | the two-point children, each as long as its own parent |
| `Crossover.TwoPointSplit` | mater.go:138-187 | only [lo, hi) is swapped, the outer overlapping segments are kept, the longer child's tail is 0 |
| `Crossover.UniformCells` | mater.go:196-230 | the uniform children, each as long as its own parent |
| `Crossover.UniformSplit` | mater.go:196-230 | below minSize cell i is kept when its coin is above 0.5 and swapped otherwise; the tail is 0 |
| `Crossover.FlipChanges` | mater.go:245 | byte(1 - x) always differs from x |
| `Crossover.FlipFlip` | mater.go:245 | byte(1 - byte(1 - x)) is x |
| `Crossover.MutateCells` | mater.go:240-248 | the mutated child has the parent's length |
| `Crossover.MutateChangesOnlyAt` | mater.go:240-248 | mutation changes the chosen cell and no other |
| `Crossover.MutateInvolution` | mater.go:240-248 | mutating the same cell twice restores the parent |
| `Maters.ApplyCells` | mater.go:94-248 | each operator keeps each child at its parent's length |
| `Maters.ChainCells` | mater.go:51-66 | the chain's first child keeps the first parent's length |
| `Maters.ChainNoneFires` | mater.go:55-63 | when no draw is below its probability, Go returns the parents' cells |
| `Maters.ChainFitsUniform` | mater.go:51-66 | on genomes of one size the chain can run whenever each entry's draws fit that size |
| `Maters.ChainKeepsSize` | mater.go:51-66 | on genomes of one size every child of the chain has that size |
| `Maters.SingleCertainEntry` | mater.go:55-63 | a single entry of probability 1 always fires, so Go returns that operator's children |
| `Maters.CreateChildren` | mater.go:98-102 | two fresh all-zero bitsets of the parents' sizes, over distinct arrays |
| `Maters.CopyCell` | mater.go:109-110 | one `Set(i, Get(i))` copies cell i of the parent and leaves the child's other cells alone |
| `Maters.KeepLoop` | mater.go:108-111 | the loop copies each parent's cells in [lo, hi) into its own child |
| `Maters.SwapLoop` | mater.go:113-116 | the loop copies each parent's cells in [lo, hi) into the other child |
| `Maters.TailLoop` | mater.go:118-126 | the tail loops change neither child, since every Set falls past the shorter child's size |
| `Maters.Finish` | mater.go:118-128 | after the tail loop the new genomes wrap the children and hold the intended cells |
| `Maters.OnePointCrossover` | mater.go:94-129 | the children's cells are OnePointCells of the parents' cells and the cut draw |
| `Maters.RedrawLoop` | mater.go:153-155 | the redraw loop ends on the first differing redraw, in [1, minSize-1] |
| `Maters.DrawTwoCuts` | mater.go:150-160 | the two cuts, swapped into ascending order, are TwoPointCuts |
| `Maters.TwoPointCrossover` | mater.go:138-187 | the children's cells are TwoPointCells of the parents' cells and the draws |
| `Maters.UniformLoop` | mater.go:209-217 | the coin loop builds the overlapping prefix of both children |
| `Maters.UniformCrossover` | mater.go:196-230 | the children's cells are UniformCells of the parents' cells and the coins |
| `Maters.Mutate` | mater.go:240-248 | child 1 is a fresh copy of g1 with the drawn cell flipped; child 2 wraps g2's own array and cells |
| `Maters.FlipCopy` | mater.go:242-245 | a fresh copy of the bitset whose drawn cell holds byte(1 - cell), the other cells equal |
| `Maters.Apply` | mater.go:58-62 | calling an entry's operator yields ApplyCells of the parents' cells |
| `Maters.NullMater.Go` | mater.go:18-20 | fresh genomes wrapping the parents' own arrays and cells |
| `Maters.NullMater.OnElite` | mater.go:23-24 | does nothing: its frame is empty, so no state changes |
| `Maters.Rewrap` | mater.go:53-54 | fresh genomes over the parents' own arrays, holding the parents' sizes and cells |
| `Maters.Step` | mater.go:55-64 | one pass of the chain loop: a firing entry replaces the running pair, the elite taking the second argument for UseElite |
| `Maters.RunChain` | mater.go:55-64 | the loop over the entries yields ChainCells of the pair it starts from; its results are that pair or fresh genomes |
| `Maters.Mater.constructor` | mater.go:43-47 | NewMater keeps the chain as given and has no elite yet |
| `Maters.Mater.OnElite` | mater.go:69-71 | the stored elite is the argument |
| `Maters.Mater.Go` | mater.go:51-66 | fresh genomes whose cells are ChainCells of the parents, the draws and the stored elite |
| `StableSorts.Insert` | genetic_algorithm.go:219-221 | inserting adds exactly one element |
| `StableSorts.SortDesc` | genetic_algorithm.go:219-221 | the sorted pool has the pool's length |
| `StableSorts.SortPermutes` | genetic_algorithm.go:219-221 | the sorted pool is a permutation of the pool |
| `StableSorts.SortDescends` | genetic_algorithm.go:219-221 | the sorted pool is in descending fitness order |
| `StableSorts.SortStable` | genetic_algorithm.go:219-221 | members of equal fitness keep their relative order |
| `StableSorts.SortHeadIsMax` | genetic_algorithm.go:219-221 | the first member of the sorted pool is at least as fit as every pool member |
| `GeneticAlgorithms.NewMember` | genome.go:20-22 | a new genome holds the cells with fitness 0 and origin 0 |
| `GeneticAlgorithms.ApplyOpt` | genetic_algorithm.go:43-70 | each option sets its own field of the options and leaves the others |
| `GeneticAlgorithms.Configure` | genetic_algorithm.go:95-104 | the options applied in order to the defaults 10, 2, 1, 0.1, 100000 |
| `GeneticAlgorithms.LastOptionDecides` | genetic_algorithm.go:102-104 | an option that no later option of the same kind overrides holds in the result: applying it again changes nothing |
| `GeneticAlgorithms.ConfigureDefaults` | genetic_algorithm.go:95-104 | a field no option names keeps its default: population 10, ratio 2, parallel 1, random ratio 0.1, LRU 100000 |
| `GeneticAlgorithms.LastPopulationSizeDecides` | genetic_algorithm.go:48-52 | the last PopulationSize option decides the population size |
| `GeneticAlgorithms.LastMaterExtraRatioDecides` | genetic_algorithm.go:60-64 | the last MaterExtraRatio option decides the ratio |
| `GeneticAlgorithms.LastParallelSimulationsDecides` | genetic_algorithm.go:66-70 | the last ParallelSimulations option decides the worker count |
| `GeneticAlgorithms.LastLRUSizeDecides` | genetic_algorithm.go:43-47 | the last LRUSize option decides the cache size |
| `GeneticAlgorithms.LastRandomRatioDecides` | genetic_algorithm.go:54-58 | the last RandomRatio option decides the random ratio of the options |
| `GeneticAlgorithms.ConfigureFields` | genetic_algorithm.go:95-104 | for each of the five fields, the last option naming it decides its value |
| `GeneticAlgorithms.TotalFitness` | genetic_algorithm.go:115-118 | the fitness values summed front to back |
| `GeneticAlgorithms.TotalFitnessBounds` | genetic_algorithm.go:115-118 | with no negative fitness the total is non-negative and at least every member's fitness |
| `GeneticAlgorithms.TotalFitnessConcat` | genetic_algorithm.go:115-118 | the total fitness of a concatenation is the sum of the totals |
| `GeneticAlgorithms.Beats` | genetic_algorithm.go:147 | the scan's test: greater fitness, or equal fitness and greater origin |
| `GeneticAlgorithms.BeatsIsStrict` | genetic_algorithm.go:147 | the test is a strict order: irreflexive, asymmetric and transitive |
| `GeneticAlgorithms.EliteIndex` | genetic_algorithm.go:144-152 | getElite's scan ends on a valid index |
| `GeneticAlgorithms.EliteIndexSpec` | genetic_algorithm.go:144-152 | no member beats the elite, the elite has the greatest fitness, and it beats every earlier member (so the earliest wins a full tie) |
| `GeneticAlgorithms.PoolHoldsPopulation` | genetic_algorithm.go:194-225 | a non-empty pool of size n*r has room for the n survivors |
| `GeneticAlgorithms.EliteSurvivesSort` | genetic_algorithm.go:196-225 | the head of the sorted pool is at least as fit as the elite in slot 0 |
| `GeneticAlgorithms.GeneticAlgorithm.constructor` | genetic_algorithm.go:74-82 | NewGeneticAlgorithm: collaborators as given, every number at Go's zero value, no exit predicate |
| `GeneticAlgorithms.GeneticAlgorithm.Scored` | genetic_algorithm.go:126-129 | a simulated genome keeps its cells and takes the simulator's fitness and origin |
| `GeneticAlgorithms.GeneticAlgorithm.CreatePopulation` | genetic_algorithm.go:84-90 | populationSize new genomes, the k-th from the next BitsetCreate.Go call |
| `GeneticAlgorithms.GeneticAlgorithm.Init` | genetic_algorithm.go:94-111 | the configured sizes are copied and the population has exactly populationSize genomes, one factory call each |
| `GeneticAlgorithms.GeneticAlgorithm.BeginSimulation` | genetic_algorithm.go:113-118 | totalFitness becomes the sum of the population's fitness values |
| `GeneticAlgorithms.GeneticAlgorithm.SimulatePopulation` | genetic_algorithm.go:176-180 | every member of the population is simulated once, in place: the population becomes `Simulated` of the old one |
| `GeneticAlgorithms.GeneticAlgorithm.Simulated` | genetic_algorithm.go:176-180 | the population with every member replaced by its simulated genome |
| `GeneticAlgorithms.GeneticAlgorithm.GetElite` | genetic_algorithm.go:144-152 | the member the front-to-back scan with the fitness-then-origin test ends on |
| `GeneticAlgorithms.GeneticAlgorithm.ShouldExit` | genetic_algorithm.go:162-167 | the SimulateUntil predicate when one is set, Simulator.ExitFunc otherwise |
| `GeneticAlgorithms.GeneticAlgorithm.ExitTest` | genetic_algorithm.go:162-167 | the predicate shouldExit consults, as a value: the SimulateUntil predicate when one is set, Simulator.ExitFunc otherwise |
| `GeneticAlgorithms.GeneticAlgorithm.PoolSize` | genetic_algorithm.go:194 | newPopulationSize is populationSize * MaterExtraRatio; it is 0 exactly when one factor is, and otherwise holds the populationSize survivors |
| `GeneticAlgorithms.GeneticAlgorithm.Parent` | genetic_algorithm.go:198-199 | the genome the d-th Selector.Go call picks from the population |
| `GeneticAlgorithms.GeneticAlgorithm.Offspring` | genetic_algorithm.go:198-200 | the children of the t-th Mater.Go call on the t-th pair of selected parents |
| `GeneticAlgorithms.GeneticAlgorithm.AdmitCell` | genetic_algorithm.go:201-206 | a child whose bits are cached is dropped; otherwise it is cached and placed, simulated, in the next slot |
| `GeneticAlgorithms.GeneticAlgorithm.Offer` | genetic_algorithm.go:197-216 | one pass of the loop body: the first child is offered, the second only while a slot is left |
| `GeneticAlgorithms.GeneticAlgorithm.Mating` | genetic_algorithm.go:196-217 | the loop from slot 0 = elite: one pass per mating until the n slots are full (or the attempt bound is reached) |
| `GeneticAlgorithms.GeneticAlgorithm.Exhausted` | genetic_algorithm.go:196-217 | a generation's loop made all its allowed matings without filling the pool |
| `GeneticAlgorithms.GeneticAlgorithm.OfferCache` | genetic_algorithm.go:201-215 | a pass places at most the slots left, keeps the earlier slots, and adds exactly the placed bits to the cache |
| `GeneticAlgorithms.GeneticAlgorithm.OfferLooks` | genetic_algorithm.go:201-215 | a pass caches its first child, and its second child unless the first filled the last slot |
| `GeneticAlgorithms.GeneticAlgorithm.MatingBounds` | genetic_algorithm.go:196-217 | the loop never overfills, keeps the earlier slots, and stops short of n slots only at the attempt bound |
| `GeneticAlgorithms.GeneticAlgorithm.MatingSpec` | genetic_algorithm.go:201-215 | the final cache is the starting cache plus the bits of every child placed |
| `GeneticAlgorithms.GeneticAlgorithm.MatingGrows` | genetic_algorithm.go:196-217 | the cache only grows, and a mating is made only while a slot is left |
| `GeneticAlgorithms.GeneticAlgorithm.MatingFirstChildren` | genetic_algorithm.go:200-206 | the first child of every mating made is in the final cache: a fresh one was placed |
| `GeneticAlgorithms.GeneticAlgorithm.MatingSecondChildren` | genetic_algorithm.go:207-215 | the second child of every mating but the last is in the final cache |
| `GeneticAlgorithms.GeneticAlgorithm.PoolFilledAdmit` | genetic_algorithm.go:201-206 | placing an uncached child of the current mating keeps the pool invariant |
| `GeneticAlgorithms.GeneticAlgorithm.OfferFilled` | genetic_algorithm.go:197-216 | a pass keeps the pool invariant: elite first, distinct, simulated, uncached children of the matings made |
| `GeneticAlgorithms.GeneticAlgorithm.MatingFilled` | genetic_algorithm.go:196-217 | the whole loop keeps the pool invariant, so slot 0 is the elite and every other slot a distinct, simulated child unseen by the starting cache |
| `GeneticAlgorithms.GeneticAlgorithm.Admit` | genetic_algorithm.go:201-215 | a child whose bits the cache has seen leaves pool and cache as they were; otherwise the cache gains its bits and the pool gains it, simulated, at the end |
| `GeneticAlgorithms.GeneticAlgorithm.MatingPass` | genetic_algorithm.go:198-215 | the loop body computes Offer for mating t |
| `GeneticAlgorithms.GeneticAlgorithm.MatingLoop` | genetic_algorithm.go:196-217 | the loop yields exactly the pool, cache and mating count of Mating |
| `GeneticAlgorithms.GeneticAlgorithm.Breed` | genetic_algorithm.go:194-217 | pool, cache and mating count are those of Mating from the elite alone; the pool has 1..n slots, the elite first, and is full exactly when the attempts did not run out |
| `GeneticAlgorithms.GeneticAlgorithm.Survivors` | genetic_algorithm.go:222-229 | the first keep members copy the sorted pool, the rest are fresh factory genomes; the size is populationSize |
| `GeneticAlgorithms.GeneticAlgorithm.Generation` | genetic_algorithm.go:193-230 | cache and mating count are Mating's; a full pool makes the population the first populationSize members of its stable descending sort, headed by a genome at least as fit as the elite; otherwise nothing else changes and the generation is Exhausted; the new state is NextGeneration of the old one, and totalFitness is the old population's total |
| `GeneticAlgorithms.GeneticAlgorithm.NextGeneration` | genetic_algorithm.go:193-230 | one generation on values: the population keeps its size, and a pool that did not fill leaves it as it was |
| `GeneticAlgorithms.GeneticAlgorithm.GenerationFresh` | genetic_algorithm.go:196-229 | a generation only adds to the cache; after a full one every member is the elite or a simulated child whose bits are new to the cache the generation started from |
| `GeneticAlgorithms.GeneticAlgorithm.NextGenerationElite` | genetic_algorithm.go:184-229 | a full generation's elite is at least as fit as the elite it was bred from |
| `GeneticAlgorithms.GeneticAlgorithm.Replace` | genetic_algorithm.go:218-229 | the population becomes a prefix of the pool sorted by descending fitness, its head at least as fit as the elite in slot 0 |
| `GeneticAlgorithms.GeneticAlgorithm.ShowElite` | genetic_algorithm.go:184-187 | the elite is computed, shown once, fits at least as well as every member, and the exit test is asked about it |
| `GeneticAlgorithms.GeneticAlgorithm.ShowNext` | genetic_algorithm.go:184-189 | inside the run, the shown elites stay in ascending fitness and every one but an accepted last was rejected |
| `GeneticAlgorithms.GeneticAlgorithm.Round` | genetic_algorithm.go:184-230 | one pass of the for loop: the new state is NextGeneration of the old; when its pool filled the next elite, at least as fit, is shown to the exit test and Evolution continues from the new population and cache with one generation fewer; otherwise shown elites are unchanged, the generation is Exhausted and Evolution ends there at AttemptLimit |
| `GeneticAlgorithms.GeneticAlgorithm.Evolution` | genetic_algorithm.go:183-231 | the generation loop on values: the population keeps its size; only AttemptLimit records the last generation's start and cache |
| `GeneticAlgorithms.GeneticAlgorithm.NextRound` | genetic_algorithm.go:183-231 | the loop past a rejected elite: GenerationLimit with no generation left, PoolIndexPanic with no slot, otherwise Breeding |
| `GeneticAlgorithms.GeneticAlgorithm.Breeding` | genetic_algorithm.go:193-231 | a generation is bred; one whose pool did not fill ends the run at AttemptLimit, a full one continues from its population and the cache it left |
| `GeneticAlgorithms.GeneticAlgorithm.EvolutionBreeds` | genetic_algorithm.go:187-193 | past a rejected elite, with a generation and a slot left, the loop breeds |
| `GeneticAlgorithms.GeneticAlgorithm.EvolutionStep` | genetic_algorithm.go:184-231 | one generation of the loop: the run continues from the full generation's population, cache and mating count, or stops at AttemptLimit after an Exhausted one; the cache only grows and the elite fitness does not drop |
| `GeneticAlgorithms.GeneticAlgorithm.EvolutionCacheGrows` | genetic_algorithm.go:182-216 | the cache is threaded through the run, so the final cache holds every pattern the run started with |
| `GeneticAlgorithms.GeneticAlgorithm.EvolutionShows` | genetic_algorithm.go:184-187 | the run shows the elites already shown, then one per full generation, the last being the elite of the final population |
| `GeneticAlgorithms.GeneticAlgorithm.EvolutionCounts` | genetic_algorithm.go:183-231 | a run that used up its generations showed one elite per generation; one that ended on the pool index had a pool of size 0 |
| `GeneticAlgorithms.GeneticAlgorithm.EvolutionExits` | genetic_algorithm.go:187-189 | the run ends at Exited exactly when the exit test accepts the last elite shown |
| `GeneticAlgorithms.GeneticAlgorithm.EvolutionRejects` | genetic_algorithm.go:187-189 | the exit test rejected every elite shown before the last |
| `GeneticAlgorithms.GeneticAlgorithm.EvolutionAscends` | genetic_algorithm.go:184-229 | the shown elites keep ascending in fitness |
| `GeneticAlgorithms.GeneticAlgorithm.EvolutionExhausts` | genetic_algorithm.go:196-217 | a run at AttemptLimit ended in a generation that made exactly maxAttempts matings, from its start and cache, without filling the pool |
| `GeneticAlgorithms.GeneticAlgorithm.EvolutionRun` | genetic_algorithm.go:183-231 | all of the run facts at once, for a run from an elite just shown with an empty cache |
| `GeneticAlgorithms.GeneticAlgorithm.Generations` | genetic_algorithm.go:183-231 | the while loop computes Evolution from the empty cache: final population, mating count, shown elites, result, and the last generation's start and cache |
| `GeneticAlgorithms.GeneticAlgorithm.Evolve` | genetic_algorithm.go:182-231 | the final population, mating count, shown elites and result are those of Evolution from the population it is given and an empty cache; one elite is shown per generation, all but the last rejected, the run exits iff the last is accepted, elite fitness never drops; AttemptLimit means the last generation made maxAttempts matings without filling the pool |
| `GeneticAlgorithms.GeneticAlgorithm.Simulate` | genetic_algorithm.go:170-234 | false at once, with no exit test and no other change, iff the population size is 0; otherwise the population is simulated and the outcome is Evolution's from it, with Evolve's guarantees, AttemptLimit included |
| `GeneticAlgorithms.GeneticAlgorithm.SimulateUntil` | genetic_algorithm.go:157-160 | the given predicate is kept and decides the exit: the outcome is Evolution's with that predicate, the run ends on the first elite it accepts; the limits mean what they mean for Simulate |
| `GeneticAlgorithms.GeneticAlgorithm.GetPopulation` | genetic_algorithm.go:237-239 | the population has populationSize genomes |
| `FunctionOptimizer.Tick` | function_optimizer/function_optimizer.go:43-48 | iter grows by one and lastFitness becomes f; stableIter restarts at 1 on a changed fitness and grows by one otherwise |
| `FunctionOptimizer.Exits` | function_optimizer/function_optimizer.go:49-51 | the call exits when iter is past minIter and stableIter is below stableExitIter |
| `FunctionOptimizer.WantsOnStable` | function_optimizer/function_optimizer.go:52-56 | a call that does not exit asks for onStable once stableIter passes stableMinIter |
| `FunctionOptimizer.Run` | function_optimizer/function_optimizer.go:42-48 | the counters after one call per fitness, in order |
| `FunctionOptimizer.TrailingRun` | function_optimizer/function_optimizer.go:43-47 | the length of the maximal run of equal values at the end of the sequence |
| `FunctionOptimizer.RunCounters` | function_optimizer/function_optimizer.go:42-48 | after n calls, iter grew by n, lastFitness is the last fitness, and stableIter counts the trailing equal fitnesses |
| `FunctionOptimizer.ExitAfterRun` | function_optimizer/function_optimizer.go:49-51 | from a fresh simulator the n-th call exits iff n > minIter and the trailing stable count is below stableExitIter |
| `FunctionOptimizer.ChangeExitsPastMinIter` | function_optimizer/function_optimizer.go:43-51 | past minIter, a call that sees a changed fitness exits when stableExitIter >= 2 |
| `FunctionOptimizer.FuncMaterSimulator.constructor` | function_optimizer/function_optimizer.go:263-273 | thresholds and hooks from the options, counters at zero |
| `FunctionOptimizer.FuncMaterSimulator.OnBeginSimulation` | function_optimizer/function_optimizer.go:26-30 | onBegin is invoked once iff it is set |
| `FunctionOptimizer.FuncMaterSimulator.OnEndSimulation` | function_optimizer/function_optimizer.go:31-35 | onEnd is invoked once iff it is set |
| `FunctionOptimizer.FuncMaterSimulator.ExitFunc` | function_optimizer/function_optimizer.go:42-58 | the counters take one Tick on the elite's fitness, the answer is Exits of the new counters, and onStable runs iff it is set and the call does not exit with stableIter > stableMinIter |

## Left out

- Concurrency: the worker goroutines, the channel and the `WaitGroup`
  barrier (genetic_algorithm.go:119-142). Evaluation is a sequential loop.
  With ParallelSimulations <= 0 no worker starts (genetic_algorithm.go:122),
  so with a non-empty population Go blocks forever on the first send to the
  unbuffered channel (genetic_algorithm.go:136, reached from :178); the model
  evaluates the population anyway. The `time.Sleep` between generations is
  left out too.
- Randomness: `math/rand` draws are explicit parameters. The statistical
  behaviour of the operators and the selector is not modelled.
- The LRU cache of the mating loop is not part of this model. It is an
  unbounded set, so eviction is not modelled.
- The selector (`Roulette`, `NewSelector`, `NullSelector`, `RandomSelect`) is
  not part of this model. It is an oracle index into the population.
- The engine's Mater, Simulator, BitsetCreate and EliteConsumer are the fixed
  functions above, not objects. `Simulator.OnBeginSimulation` and
  `OnEndSimulation` carry no state in the engine model. Genomes in the engine
  are values, so the aliasing between a pool slot and the population member
  it came from is not modelled there.
- The exit predicate takes the whole history of shown elites, so a stateful
  predicate such as `FuncMaterSimulator.ExitFunc` is a function of that history.
- Float encoding: `ParseBitsToFloat64Arr`, `ParseFloat64ArrToBits`,
  `Float64ToByte`, `ByteToFloat64` and `Round` are IEEE-754 reinterpretation
  and rounding. Fitness and origin are `real`, so floating-point rounding and
  NaN are not modelled.
- The survivor count `int(float64(n)*(1-randomRatio))` is a float
  computation. `Survivors` takes it as an integer `keep`. Because
  `randomRatio` is always 0, the engine passes `populationSize`.
- GeneticAlgorithms.Options: the option values are `nat`. Go's fields are
  `int`, and a negative PopulationSize or MaterExtraRatio makes `make` panic
  (genetic_algorithm.go:85 and 195). Those panics are not modelled.
- GeneticAlgorithms.GeneticAlgorithm.Scored: the simulator is a function of
  the genome's bits, so equal bits always get equal scores. A Go Simulator
  may score them differently: the function optimizer's default objective returns
  `rand.Float64()` (function_optimizer/function_optimizer.go:233).
- Bitsets.Bitset.GetAll: returns the cells as a value. Go returns the slice
  itself (bitset.go:30-32), so a caller's writes to it would reach the
  bitset; that aliasing is not modelled.
- Go's 64-bit `int` wrap-around of the optimizer's counters and of the pool
  size `populationSize * MaterExtraRatio` is not modelled.
- The function optimizer's `Simulate`, `myBitsetCreate`, `myEliteConsumer`,
  `NewFuncAlgo` and its options are option wiring, float parsing and printing.
- Bitsets.Bitset.SetAllArr: requires the new slice to hold at least `size`
  cells; in Go a shorter slice is accepted and a later Get panics.
- Bitsets.Bitset.Get: requires a non-negative index; Go panics on a negative
  one. Bitsets.Bitset.Set likewise.
- Maters.Mater.Go: requires that an entry using the elite fires only after
  OnElite; in Go the nil elite panics. It also requires that each firing
  entry's draws fit its operator (`DrawsFit`), as below.
- Maters.ApplyCells: requires `DrawsFit`, which leaves out the inputs on
  which Go panics or hangs. One-point and two-point crossover call
  `rand.Intn(minSize-1)`, which panics when the shorter parent has fewer than
  2 cells. Mutation calls `rand.Intn(size)`, which panics on an empty first
  parent. The two-point redraw loop never ends when every redraw repeats the
  first cut, which is certain for 2 overlapping cells (`TwoPointNeedsThree`).
- Maters.Operator: a chain entry's operator is one of the four operators of
  mater.go. In Go, `MaterFunctionProbability.F` is any function (mater.go:31-35),
  so user-written operators are not modelled. The chain that the function
  optimizer builds from them (function_optimizer/function_optimizer.go:250-255)
  is not part of this model.
- GeneticAlgorithms.GeneticAlgorithm.Simulate: runs for at most a given number
  of generations and mating attempts per generation, reporting
  `GenerationLimit` or `AttemptLimit` where Go would keep going; a pool of
  size 0 reports `PoolIndexPanic` where Go panics. With a non-empty
  population and ParallelSimulations <= 0 it returns a result where Go blocks
  forever on its first send to the simulation channel (see Concurrency).
- GeneticAlgorithms.GeneticAlgorithm.Evolve: the cache is threaded through
  the run by `Evolution` (each generation starts from the cache the one
  before left, the first from the empty set), and `EvolutionCacheGrows` and
  `GenerationFresh` state that it only grows and that a generation admits only
  patterns new to it. That a pattern admitted in one generation is refused in
  every later one follows from these two; it is not stated as one lemma over
  the whole run.
- The call counts asserted in genetic_algorithm_test.go (:120-122, :252,
  :445) predate the dedup cache and `MaterExtraRatio`, so they do not follow
  from the current mating loop and are not modelled.

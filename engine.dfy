/**
 * The generational engine of goga (genetic_algorithm.go), run sequentially.
 *
 * The engine's collaborators are Go interfaces whose implementations lie
 * outside it, so here they are fixed functions handed to the constructor:
 *  - `create k`      : the cells of the bitset returned by the k-th BitsetCreate.Go call;
 *  - `simulate c`    : the fitness and origin Simulator.Simulate gives a genome with cells c;
 *  - `select d`      : the index (modulo the population size) Selector.Go returns on its d-th call;
 *  - `mate(t,a,b,e)` : the cells of the two children of the t-th Mater.Go call on parents
 *                      with cells a and b, when the elite last passed to Mater.OnElite has cells e;
 *  - `simulatorExit h`: Simulator.ExitFunc, given the elites shown so far (the last one is
 *                      the argument; the earlier ones stand for the predicate's own state).
 * Genomes are held as values: their bit content, fitness and origin.
 */
module GeneticAlgorithms {
  import opened Bitsets
  import opened StableSorts

  datatype Option<T> = None | Some(value: T)

  /** A genome of the population: bit content, fitness and origin. */
  datatype Member = Member(cells: seq<Byte>, fitness: real, origin: real)

  /** What the simulator sets on a genome. */
  datatype Score = Score(fitness: real, origin: real)

  /** NewGenome: the given cells, fitness 0 and origin 0. */
  function NewMember(cells: seq<Byte>): (m: Member)
    ensures m.cells == cells && m.fitness == 0.0 && m.origin == 0.0
  {
    Member(cells, 0.0, 0.0)
  }

  /** The sort key of the pool. */
  function Fitness(m: Member): real { m.fitness }

  /** How a run of Simulate ends. */
  datatype RunResult =
    | NoPopulation     // populationSize is 0: the source returns false
    | Exited           // the exit predicate accepted an elite: the source returns true
    | PoolIndexPanic   // the pool has no slot for the elite (MaterExtraRatio 0): the source panics
    | GenerationLimit  // the model's bound on generations was reached
    | AttemptLimit     // the model's bound on mating attempts in one generation was reached

  /** One generation's effect: the next population, the cache, the mating count and whether the pool filled. */
  datatype Generated = Generated(population: seq<Member>, cache: set<seq<Byte>>, matings: nat, full: bool)

  /**
   * The end state of the generation loop. `lastStart` and `lastCache` are the
   * mating count and cache the last generation started from when the attempts
   * ran out, and 0 and {} otherwise.
   */
  datatype Outcome = Outcome(population: seq<Member>, cache: set<seq<Byte>>, matings: nat, shown: seq<Member>,
                             result: RunResult, lastStart: nat, lastCache: set<seq<Byte>>)

  // ---------------------------------------------------------------- options

  datatype Options = Options(populationSize: nat, materExtraRatio: nat, parallelSimulations: nat,
                             randomRatio: real, lruSize: nat)

  /** The defaults Init starts from. */
  const Defaults := Options(10, 2, 1, 0.1, 100000)

  /** One functional option: each one overwrites one field. */
  datatype Opt =
    | LRUSize(n: nat)
    | PopulationSize(n: nat)
    | RandomRatio(r: real)
    | MaterExtraRatio(n: nat)
    | ParallelSimulations(n: nat)

  function ApplyOpt(o: Options, opt: Opt): Options
  {
    match opt
    case LRUSize(n) => o.(lruSize := n)
    case PopulationSize(n) => o.(populationSize := n)
    case RandomRatio(r) => o.(randomRatio := r)
    case MaterExtraRatio(n) => o.(materExtraRatio := n)
    case ParallelSimulations(n) => o.(parallelSimulations := n)
  }

  /** The options after applying `opts` in order to the defaults. */
  function Configure(opts: seq<Opt>): Options
  {
    if |opts| == 0 then Defaults else ApplyOpt(Configure(opts[..|opts| - 1]), opts[|opts| - 1])
  }

  /** Whether two options set the same field. */
  predicate SameField(a: Opt, b: Opt)
  {
    || (a.LRUSize? && b.LRUSize?)
    || (a.PopulationSize? && b.PopulationSize?)
    || (a.RandomRatio? && b.RandomRatio?)
    || (a.MaterExtraRatio? && b.MaterExtraRatio?)
    || (a.ParallelSimulations? && b.ParallelSimulations?)
  }

  /**
   * An option that no later option overrides holds in the result: applying
   * it once more to the configured options changes nothing.
   */
  lemma {:induction false} LastOptionDecides(opts: seq<Opt>, i: nat)
    requires i < |opts| && forall j :: i < j < |opts| ==> !SameField(opts[i], opts[j])
    ensures ApplyOpt(Configure(opts), opts[i]) == Configure(opts)
    decreases |opts|
  {
    var init := opts[..|opts| - 1];
    if i < |opts| - 1 {
      assert forall j :: i < j < |init| ==> init[j] == opts[j];
      LastOptionDecides(init, i);
      assert init[i] == opts[i] && !SameField(opts[i], opts[|opts| - 1]);
    }
  }

  /** A field no option names keeps its default. */
  lemma {:induction false} ConfigureDefaults(opts: seq<Opt>)
    ensures (forall i :: 0 <= i < |opts| ==> !opts[i].PopulationSize?) ==> Configure(opts).populationSize == 10
    ensures (forall i :: 0 <= i < |opts| ==> !opts[i].MaterExtraRatio?) ==> Configure(opts).materExtraRatio == 2
    ensures (forall i :: 0 <= i < |opts| ==> !opts[i].ParallelSimulations?) ==> Configure(opts).parallelSimulations == 1
    ensures (forall i :: 0 <= i < |opts| ==> !opts[i].LRUSize?) ==> Configure(opts).lruSize == 100000
    ensures (forall i :: 0 <= i < |opts| ==> !opts[i].RandomRatio?) ==> Configure(opts).randomRatio == 0.1
    decreases |opts|
  {
    if |opts| > 0 {
      var init := opts[..|opts| - 1];
      ConfigureDefaults(init);
      assert forall i :: 0 <= i < |init| ==> init[i] == opts[i];
    }
  }

  /** The last PopulationSize option decides `populationSize`. */
  lemma LastPopulationSizeDecides(opts: seq<Opt>)
    ensures forall i :: 0 <= i < |opts| && opts[i].PopulationSize? && (forall j :: i < j < |opts| ==> !opts[j].PopulationSize?)
              ==> Configure(opts).populationSize == opts[i].n
  {
    forall i | 0 <= i < |opts| && opts[i].PopulationSize? && (forall j :: i < j < |opts| ==> !opts[j].PopulationSize?)
      ensures Configure(opts).populationSize == opts[i].n
    {
      LastOptionDecides(opts, i);
    }
  }

  /** The last MaterExtraRatio option decides `materExtraRatio`. */
  lemma LastMaterExtraRatioDecides(opts: seq<Opt>)
    ensures forall i :: 0 <= i < |opts| && opts[i].MaterExtraRatio? && (forall j :: i < j < |opts| ==> !opts[j].MaterExtraRatio?)
              ==> Configure(opts).materExtraRatio == opts[i].n
  {
    forall i | 0 <= i < |opts| && opts[i].MaterExtraRatio? && (forall j :: i < j < |opts| ==> !opts[j].MaterExtraRatio?)
      ensures Configure(opts).materExtraRatio == opts[i].n
    {
      LastOptionDecides(opts, i);
    }
  }

  /** The last ParallelSimulations option decides `parallelSimulations`. */
  lemma LastParallelSimulationsDecides(opts: seq<Opt>)
    ensures forall i :: 0 <= i < |opts| && opts[i].ParallelSimulations? && (forall j :: i < j < |opts| ==> !opts[j].ParallelSimulations?)
              ==> Configure(opts).parallelSimulations == opts[i].n
  {
    forall i | 0 <= i < |opts| && opts[i].ParallelSimulations? && (forall j :: i < j < |opts| ==> !opts[j].ParallelSimulations?)
      ensures Configure(opts).parallelSimulations == opts[i].n
    {
      LastOptionDecides(opts, i);
    }
  }

  /** The last LRUSize option decides `lruSize`. */
  lemma LastLRUSizeDecides(opts: seq<Opt>)
    ensures forall i :: 0 <= i < |opts| && opts[i].LRUSize? && (forall j :: i < j < |opts| ==> !opts[j].LRUSize?)
              ==> Configure(opts).lruSize == opts[i].n
  {
    forall i | 0 <= i < |opts| && opts[i].LRUSize? && (forall j :: i < j < |opts| ==> !opts[j].LRUSize?)
      ensures Configure(opts).lruSize == opts[i].n
    {
      LastOptionDecides(opts, i);
    }
  }

  /** The last RandomRatio option decides `randomRatio`. */
  lemma LastRandomRatioDecides(opts: seq<Opt>)
    ensures forall i :: 0 <= i < |opts| && opts[i].RandomRatio? && (forall j :: i < j < |opts| ==> !opts[j].RandomRatio?)
              ==> Configure(opts).randomRatio == opts[i].r
  {
    forall i | 0 <= i < |opts| && opts[i].RandomRatio? && (forall j :: i < j < |opts| ==> !opts[j].RandomRatio?)
      ensures Configure(opts).randomRatio == opts[i].r
    {
      LastOptionDecides(opts, i);
    }
  }

  /** For every field, the last option naming it decides its value. */
  lemma ConfigureFields(opts: seq<Opt>)
    ensures forall i :: 0 <= i < |opts| && opts[i].PopulationSize? && (forall j :: i < j < |opts| ==> !opts[j].PopulationSize?)
              ==> Configure(opts).populationSize == opts[i].n
    ensures forall i :: 0 <= i < |opts| && opts[i].MaterExtraRatio? && (forall j :: i < j < |opts| ==> !opts[j].MaterExtraRatio?)
              ==> Configure(opts).materExtraRatio == opts[i].n
    ensures forall i :: 0 <= i < |opts| && opts[i].ParallelSimulations? && (forall j :: i < j < |opts| ==> !opts[j].ParallelSimulations?)
              ==> Configure(opts).parallelSimulations == opts[i].n
    ensures forall i :: 0 <= i < |opts| && opts[i].LRUSize? && (forall j :: i < j < |opts| ==> !opts[j].LRUSize?)
              ==> Configure(opts).lruSize == opts[i].n
    ensures forall i :: 0 <= i < |opts| && opts[i].RandomRatio? && (forall j :: i < j < |opts| ==> !opts[j].RandomRatio?)
              ==> Configure(opts).randomRatio == opts[i].r
  {
    LastPopulationSizeDecides(opts);
    LastMaterExtraRatioDecides(opts);
    LastParallelSimulationsDecides(opts);
    LastLRUSizeDecides(opts);
    LastRandomRatioDecides(opts);
  }

  // ---------------------------------------------------------------- pure views

  /** Total fitness of a population, summed front to back. */
  function TotalFitness(s: seq<Member>): real
  {
    if |s| == 0 then 0.0 else TotalFitness(s[..|s| - 1]) + s[|s| - 1].fitness
  }

  /** With no negative fitness, the total is non-negative and bounds every member's fitness. */
  lemma {:induction false} TotalFitnessBounds(s: seq<Member>)
    requires forall i :: 0 <= i < |s| ==> 0.0 <= s[i].fitness
    ensures 0.0 <= TotalFitness(s)
    ensures forall i :: 0 <= i < |s| ==> s[i].fitness <= TotalFitness(s)
    decreases |s|
  {
    if |s| > 0 {
      var init := s[..|s| - 1];
      assert forall i :: 0 <= i < |init| ==> init[i] == s[i];
      TotalFitnessBounds(init);
    }
  }

  /** The total of a concatenation is the sum of the totals. */
  lemma {:induction false} TotalFitnessConcat(a: seq<Member>, b: seq<Member>)
    ensures TotalFitness(a + b) == TotalFitness(a) + TotalFitness(b)
    decreases |b|
  {
    if |b| > 0 {
      var b' := b[..|b| - 1];
      assert (a + b)[..|a + b| - 1] == a + b';
      assert (a + b)[|a + b| - 1] == b[|b| - 1];
      TotalFitnessConcat(a, b');
    } else {
      assert a + b == a;
    }
  }

  /** getElite's replacement test: greater fitness, or equal fitness and greater origin. */
  predicate Beats(x: Member, ret: Member)
  {
    x.fitness > ret.fitness || (x.fitness == ret.fitness && x.origin > ret.origin)
  }

  /** Beating is a strict order: no member beats itself, and it chains. */
  lemma BeatsIsStrict(x: Member, y: Member, z: Member)
    ensures !Beats(x, x)
    ensures Beats(x, y) ==> !Beats(y, x)
    ensures Beats(x, y) && Beats(y, z) ==> Beats(x, z)
  {
  }

  /** The index getElite ends on, scanning front to back. */
  function EliteIndex(s: seq<Member>): (i: nat)
    requires |s| > 0
    ensures i < |s|
  {
    if |s| == 1 then 0
    else
      var j := EliteIndex(s[..|s| - 1]);
      if Beats(s[|s| - 1], s[j]) then |s| - 1 else j
  }

  /**
   * The elite has the greatest fitness, the greatest origin among equal
   * fitness, and on a full tie it is the earliest member.
   */
  lemma {:induction false} EliteIndexSpec(s: seq<Member>)
    requires |s| > 0
    ensures forall j :: 0 <= j < |s| ==> !Beats(s[j], s[EliteIndex(s)])
    ensures forall j :: 0 <= j < EliteIndex(s) ==> Beats(s[EliteIndex(s)], s[j])
    ensures forall j :: 0 <= j < |s| ==> s[j].fitness <= s[EliteIndex(s)].fitness
    decreases |s|
  {
    if |s| > 1 {
      var p := s[..|s| - 1];
      EliteIndexSpec(p);
      assert forall j :: 0 <= j < |p| ==> p[j] == s[j];
    }
  }

  /** A non-empty pool of n * r slots has room for the n survivors. */
  lemma PoolHoldsPopulation(n: nat, r: nat)
    requires n * r > 0
    ensures n <= n * r
  {
    assert r >= 1;
    assert n * r == n * (r - 1) + n;
  }

  /** Fitness never drops along s from index lo on. */
  ghost predicate Ascending(s: seq<Member>, lo: nat)
  {
    forall i, j :: lo <= i <= j < |s| ==> s[i].fitness <= s[j].fitness
  }

  lemma AscendingAppend(s: seq<Member>, lo: nat, x: Member)
    requires Ascending(s, lo) && (lo < |s| ==> s[|s| - 1].fitness <= x.fitness)
    ensures Ascending(s + [x], lo)
  {
    var t := s + [x];
    forall i, j | lo <= i <= j < |t| ensures t[i].fitness <= t[j].fitness {
      if j < |s| {
        assert t[i] == s[i] && t[j] == s[j];
      } else if i < |s| {
        assert t[i] == s[i] && s[i].fitness <= s[|s| - 1].fitness;
      }
    }
  }

  /** One generation of a pool headed by the elite keeps a member at least as fit in front. */
  lemma EliteSurvivesSort(pool: seq<Member>, elite: Member)
    requires |pool| > 0 && pool[0] == elite
    ensures |SortDesc(pool, Fitness)| == |pool|
    ensures elite.fitness <= SortDesc(pool, Fitness)[0].fitness
  {
    SortHeadIsMax(pool, Fitness, elite);
  }

  class GeneticAlgorithm {
    const create: nat -> seq<Byte>
    const simulate: seq<Byte> -> Score
    const select: nat -> nat
    const mate: (nat, seq<Byte>, seq<Byte>, seq<Byte>) -> (seq<Byte>, seq<Byte>)
    const simulatorExit: seq<Member> -> bool
    /** The predicate given to SimulateUntil; None is Go's nil. */
    var exitFunc: Option<seq<Member> -> bool>

    var populationSize: nat
    var lruSize: nat
    var materExtraRatio: nat
    var parallelSimulations: nat
    /** Never assigned by Init, so it keeps Go's zero value. */
    const randomRatio: real := 0.0
    var population: seq<Member>
    var totalFitness: real

    var created: nat          // BitsetCreate.Go calls so far
    var matings: nat          // Mater.Go calls so far; mating t uses selector draws 2t and 2t+1
    var shown: seq<Member>    // elites handed to Mater.OnElite, EliteConsumer.OnElite and the exit test

    ghost predicate Valid()
      reads this
    {
      |population| == populationSize
    }

    /** newPopulationSize: populationSize * MaterExtraRatio, a pool with room for the survivors unless it is empty. */
    function PoolSize(): (n: nat)
      reads this`populationSize, this`materExtraRatio
      ensures n == populationSize * materExtraRatio && (n == 0 || populationSize <= n)
      ensures n == 0 <==> populationSize == 0 || materExtraRatio == 0
    {
      var n := populationSize * materExtraRatio;
      if n == 0 then n else PoolHoldsPopulation(populationSize, materExtraRatio); n
    }

    /** NewGeneticAlgorithm with its collaborators; every number is Go's zero value. */
    constructor (create: nat -> seq<Byte>, simulate: seq<Byte> -> Score, select: nat -> nat,
                 mate: (nat, seq<Byte>, seq<Byte>, seq<Byte>) -> (seq<Byte>, seq<Byte>),
                 simulatorExit: seq<Member> -> bool)
      ensures Valid() && populationSize == 0 && population == [] && exitFunc == None
      ensures lruSize == 0 && materExtraRatio == 0 && parallelSimulations == 0 && totalFitness == 0.0
      ensures created == 0 && matings == 0 && shown == []
      ensures this.create == create && this.simulate == simulate && this.select == select
      ensures this.mate == mate && this.simulatorExit == simulatorExit
    {
      this.create := create;
      this.simulate := simulate;
      this.select := select;
      this.mate := mate;
      this.simulatorExit := simulatorExit;
      exitFunc := None;
      populationSize := 0;
      lruSize := 0;
      materExtraRatio := 0;
      parallelSimulations := 0;
      population := [];
      totalFitness := 0.0;
      created := 0;
      matings := 0;
      shown := [];
    }

    /** A genome with cells `c` after Simulator.Simulate has run on it. */
    function Scored(c: seq<Byte>): (m: Member)
      ensures m.cells == c && m.fitness == simulate(c).fitness && m.origin == simulate(c).origin
    {
      Member(c, simulate(c).fitness, simulate(c).origin)
    }

    /** createPopulation: populationSize genomes, one BitsetCreate.Go call each, in order. */
    method CreatePopulation() returns (ret: seq<Member>)
      modifies this`created
      ensures |ret| == populationSize && created == old(created) + populationSize
      ensures forall k :: 0 <= k < |ret| ==> ret[k] == NewMember(create(old(created) + k))
    {
      var a := new Member[populationSize];
      var i := 0;
      while i < populationSize
        invariant 0 <= i <= populationSize && created == old(created) + i
        invariant forall k :: 0 <= k < i ==> a[k] == NewMember(create(old(created) + k))
      {
        a[i] := NewMember(create(created));
        created := created + 1;
        i := i + 1;
      }
      ret := a[..];
    }

    /**
     * Init: the options are applied to the defaults in order, then the sizes
     * are copied and the population is created. The random ratio is not copied.
     */
    method Init(opts: seq<Opt>)
      modifies this
      ensures Valid()
      ensures populationSize == Configure(opts).populationSize
      ensures materExtraRatio == Configure(opts).materExtraRatio
      ensures parallelSimulations == Configure(opts).parallelSimulations
      ensures lruSize == Configure(opts).lruSize
      ensures created == old(created) + populationSize
      ensures forall k :: 0 <= k < |population| ==> population[k] == NewMember(create(old(created) + k))
      ensures exitFunc == old(exitFunc) && matings == old(matings) && shown == old(shown)
      ensures totalFitness == old(totalFitness)
    {
      var o := Defaults;
      var i := 0;
      while i < |opts|
        invariant 0 <= i <= |opts| && o == Configure(opts[..i])
      {
        assert opts[..i + 1][..i] == opts[..i];
        o := ApplyOpt(o, opts[i]);
        i := i + 1;
      }
      assert opts[..|opts|] == opts;
      lruSize := o.lruSize;
      populationSize := o.populationSize;
      population := CreatePopulation();
      parallelSimulations := o.parallelSimulations;
      materExtraRatio := o.materExtraRatio;
    }

    /** beginSimulation's sum: totalFitness becomes the population's total fitness. */
    method BeginSimulation()
      modifies this`totalFitness
      ensures totalFitness == TotalFitness(population)
    {
      totalFitness := 0.0;
      var i := 0;
      while i < |population|
        invariant 0 <= i <= |population| && totalFitness == TotalFitness(population[..i])
      {
        assert population[..i + 1][..i] == population[..i];
        totalFitness := totalFitness + population[i].fitness;
        i := i + 1;
      }
      assert population[..|population|] == population;
    }

    /** Every genome of the population is dispatched to the simulator. */
    method SimulatePopulation()
      modifies this`population
      ensures |population| == |old(population)|
      ensures forall k :: 0 <= k < |population| ==> population[k] == Scored(old(population)[k].cells)
      ensures population == Simulated(old(population))
    {
      var i := 0;
      while i < |population|
        invariant 0 <= i <= |population| == |old(population)|
        invariant forall k :: 0 <= k < i ==> population[k] == Scored(old(population)[k].cells)
        invariant forall k :: i <= k < |population| ==> population[k] == old(population)[k]
      {
        population := population[i := Scored(population[i].cells)];
        i := i + 1;
      }
    }

    /** getElite: the member the front-to-back scan with Beats ends on. */
    method GetElite() returns (e: Member)
      requires Valid() && populationSize > 0
      ensures e == population[EliteIndex(population)]
    {
      var ret: Option<Member> := None;
      var i := 0;
      while i < populationSize
        invariant 0 <= i <= populationSize
        invariant i == 0 <==> ret.None?
        invariant i > 0 ==> ret == Some(population[EliteIndex(population[..i])])
      {
        if ret.None? || Beats(population[i], ret.value) {
          ret := Some(population[i]);
        }
        if i > 0 {
          var p := population[..i + 1];
          assert p[..i] == population[..i];
          assert forall k :: 0 <= k < i ==> p[k] == population[k];
        }
        i := i + 1;
      }
      assert population[..populationSize] == population;
      e := ret.value;
    }

    /** shouldExit: the SimulateUntil predicate when set, else Simulator.ExitFunc. */
    function ShouldExit(h: seq<Member>): (b: bool)
      reads this`exitFunc
      ensures exitFunc.Some? ==> b == exitFunc.value(h)
      ensures exitFunc.None? ==> b == simulatorExit(h)
    {
      ExitTest()(h)
    }

    /** The exit test as a value: ShouldExit with the predicate it currently consults. */
    function ExitTest(): (f: seq<Member> -> bool)
      reads this`exitFunc
      ensures exitFunc.Some? ==> f == exitFunc.value
      ensures exitFunc.None? ==> f == simulatorExit
    {
      match exitFunc
      case None => simulatorExit
      case Some(f) => f
    }

    /** The parent Selector.Go returns from population `pop` on draw d. */
    function Parent(pop: seq<Member>, d: nat): Member
      requires |pop| > 0
    {
      pop[select(d) % |pop|]
    }

    /** The children of mating t on population `pop`, drawn with elite `elite`. */
    function Offspring(pop: seq<Member>, t: nat, elite: Member): (seq<Byte>, seq<Byte>)
      requires |pop| > 0
    {
      mate(t, Parent(pop, 2 * t).cells, Parent(pop, 2 * t + 1).cells, elite.cells)
    }

    /**
     * What the mating loop keeps: slot 0 is the elite; every later slot holds a
     * simulated child of one of the matings lo..hi-1 whose bits were not in
     * `lru` and are now in `cache`; no two later slots share their bits.
     * `from[j]` is the mating slot j came from.
     */
    ghost predicate PoolFilled(pool: seq<Member>, from: seq<nat>, lru: set<seq<Byte>>, cache: set<seq<Byte>>,
                               pop: seq<Member>, elite: Member, lo: nat, hi: nat)
    {
      && |pop| > 0 && |from| == |pool| >= 1 && pool[0] == elite && lru <= cache
      && (forall j :: 1 <= j < |pool| ==>
            pool[j].cells !in lru && pool[j].cells in cache && pool[j] == Scored(pool[j].cells))
      && (forall j, k :: 1 <= j < k < |pool| ==> pool[j].cells != pool[k].cells)
      && (forall j :: 1 <= j < |pool| ==>
            (lo <= from[j] < hi &&
             (pool[j].cells == Offspring(pop, from[j], elite).0 ||
              pool[j].cells == Offspring(pop, from[j], elite).1)))
    }

    lemma PoolFilledWiden(pool: seq<Member>, from: seq<nat>, lru: set<seq<Byte>>, cache: set<seq<Byte>>,
                          pop: seq<Member>, elite: Member, lo: nat, hi: nat)
      requires PoolFilled(pool, from, lru, cache, pop, elite, lo, hi)
      ensures PoolFilled(pool, from, lru, cache, pop, elite, lo, hi + 1)
    {
    }

    /** Admitting a child of mating hi - 1 that the cache has not seen keeps the pool filled. */
    lemma PoolFilledAdmit(pool: seq<Member>, from: seq<nat>, lru: set<seq<Byte>>, cache: set<seq<Byte>>,
                          pop: seq<Member>, elite: Member, lo: nat, hi: nat, c: seq<Byte>)
      requires PoolFilled(pool, from, lru, cache, pop, elite, lo, hi)
      requires lo < hi && c !in cache
      requires c == Offspring(pop, hi - 1, elite).0 || c == Offspring(pop, hi - 1, elite).1
      ensures PoolFilled(pool + [Scored(c)], from + [hi - 1], lru, cache + {c}, pop, elite, lo, hi)
    {
      var p := pool + [Scored(c)];
      var f := from + [hi - 1];
      assert forall j :: 0 <= j < |pool| ==> p[j] == pool[j] && f[j] == from[j];
    }

    /** One cache lookup: a child whose bits the cache has not seen is cached and placed, simulated, in the next slot. */
    function AdmitCell(pool: seq<Member>, cache: set<seq<Byte>>, c: seq<Byte>): (seq<Member>, set<seq<Byte>>)
    {
      if c in cache then (pool, cache) else (pool + [Scored(c)], cache + {c})
    }

    /** The bits of the pool slots lo .. hi-1. */
    ghost function Placed(pool: seq<Member>, lo: nat, hi: nat): set<seq<Byte>>
      requires lo <= hi <= |pool|
    {
      set j | lo <= j < hi :: pool[j].cells
    }

    lemma PlacedOne(p: seq<Member>, i: nat)
      requires i < |p|
      ensures Placed(p, i, i + 1) == {p[i].cells} && Placed(p, i, i) == {}
    {
      assert p[i].cells in Placed(p, i, i + 1);
    }

    lemma PlacedSplit(p: seq<Member>, q: seq<Member>, lo: nat, mid: nat, hi: nat)
      requires lo <= mid <= hi <= |q| && mid <= |p| && p[..mid] == q[..mid]
      ensures Placed(q, lo, hi) == Placed(p, lo, mid) + Placed(q, mid, hi)
    {
      assert forall j :: lo <= j < mid ==> p[j] == q[j] by {
        forall j | lo <= j < mid ensures p[j] == q[j] {
          assert p[..mid][j] == q[..mid][j];
        }
      }
    }

    /**
     * One pass of the mating loop's body for mating t: its first child is
     * offered to the cache, and its second child too while a slot is left.
     */
    function Offer(pop: seq<Member>, elite: Member, n: nat, t: nat,
                   pool: seq<Member>, cache: set<seq<Byte>>): (r: (seq<Member>, set<seq<Byte>>))
      requires |pop| > 0
    {
      var kids := Offspring(pop, t, elite);
      var first := AdmitCell(pool, cache, kids.0);
      if |first.0| < n then AdmitCell(first.0, first.1, kids.1) else first
    }

    /**
     * A pass places at most two children, one only when a slot was left and
     * two only when a slot was left after the first; the cache grows by the
     * bits it placed, and holds both children it offered.
     */
    lemma OfferCache(pop: seq<Member>, elite: Member, n: nat, t: nat, pool: seq<Member>, cache: set<seq<Byte>>)
      requires |pop| > 0 && |pool| < n
      ensures var r := Offer(pop, elite, n, t, pool, cache);
              |pool| <= |r.0| <= n && r.0[..|pool|] == pool && r.1 == cache + Placed(r.0, |pool|, |r.0|)
    {
      var kids := Offspring(pop, t, elite);
      var first := AdmitCell(pool, cache, kids.0);
      var r := Offer(pop, elite, n, t, pool, cache);
      assert first.0[..|pool|] == pool;
      if kids.0 !in cache {
        PlacedOne(first.0, |pool|);
      } else {
        PlacedOne(pool + [elite], |pool|);
      }
      if |first.0| < n {
        assert r.0[..|first.0|] == first.0;
        PlacedSplit(first.0, r.0, |pool|, |first.0|, |r.0|);
        if kids.1 !in first.1 {
          PlacedOne(r.0, |first.0|);
        } else {
          PlacedOne(first.0 + [elite], |first.0|);
        }
        assert r.0[..|pool|] == pool;
      }
    }

    /** A pass looks both children up, the second unless the first filled the last slot, and caches them. */
    lemma OfferLooks(pop: seq<Member>, elite: Member, n: nat, t: nat, pool: seq<Member>, cache: set<seq<Byte>>)
      requires |pop| > 0 && |pool| < n
      ensures var r := Offer(pop, elite, n, t, pool, cache);
              Offspring(pop, t, elite).0 in r.1 && (|r.0| < n ==> Offspring(pop, t, elite).1 in r.1)
    {
    }

    /**
     * The mating loop from mating t on, with `pool` the slots filled so far and
     * `cache` the duplicate cache: each mating makes one Offer, and the loop
     * goes on with the next mating until n slots are filled (or, in the model,
     * mating `stop` is reached). Yields the pool, the cache and the number of
     * matings made.
     */
    function Mating(pop: seq<Member>, elite: Member, n: nat, t: nat, stop: nat,
                    pool: seq<Member>, cache: set<seq<Byte>>): (r: (seq<Member>, set<seq<Byte>>, nat))
      requires |pop| > 0
      decreases stop - t
    {
      if n <= |pool| || stop <= t then (pool, cache, t)
      else
        var next := Offer(pop, elite, n, t, pool, cache);
        Mating(pop, elite, n, t + 1, stop, next.0, next.1)
    }

    /**
     * The mating loop of a generation, started at mating t0 from the elite
     * alone and cache `cache`, made `maxAttempts` matings without filling
     * its n slots.
     */
    ghost predicate Exhausted(pop: seq<Member>, elite: Member, n: nat, t0: nat, maxAttempts: nat, cache: set<seq<Byte>>)
      requires |pop| > 0
    {
      |Mating(pop, elite, n, t0, t0 + maxAttempts, [elite], cache).0| < n
    }

    /**
     * The loop never overfills the pool, and it ends with a full pool or
     * after mating `stop`.
     */
    lemma {:induction false} MatingBounds(pop: seq<Member>, elite: Member, n: nat, t: nat, stop: nat,
                                          pool: seq<Member>, cache: set<seq<Byte>>)
      requires |pop| > 0 && |pool| <= n && t <= stop
      ensures var r := Mating(pop, elite, n, t, stop, pool, cache);
              t <= r.2 <= stop && (|r.0| < n ==> r.2 == stop) && |pool| <= |r.0| <= n && r.0[..|pool|] == pool
      decreases stop - t
    {
      var r := Mating(pop, elite, n, t, stop, pool, cache);
      if |pool| < n && t < stop {
        var next := Offer(pop, elite, n, t, pool, cache);
        assert |pool| <= |next.0| <= n && next.0[..|pool|] == pool;
        MatingBounds(pop, elite, n, t + 1, stop, next.0, next.1);
        assert r.0[..|next.0|][..|pool|] == r.0[..|pool|];
      } else {
        assert r.0[..|pool|] == pool;
      }
    }

    /**
     * The loop keeps the slots filled before it, and its cache is the cache
     * it started with plus the bits of every child it placed.
     */
    lemma {:induction false} MatingSpec(pop: seq<Member>, elite: Member, n: nat, t: nat, stop: nat,
                                        pool: seq<Member>, cache: set<seq<Byte>>)
      requires |pop| > 0
      ensures var r := Mating(pop, elite, n, t, stop, pool, cache);
              |pool| <= |r.0| && r.0[..|pool|] == pool && r.1 == cache + Placed(r.0, |pool|, |r.0|)
      decreases stop - t
    {
      var r := Mating(pop, elite, n, t, stop, pool, cache);
      if n <= |pool| || stop <= t {
        assert r.0[..|pool|] == pool;
        PlacedOne(pool + [elite], |pool|);
      } else {
        var next := Offer(pop, elite, n, t, pool, cache);
        OfferCache(pop, elite, n, t, pool, cache);
        MatingSpec(pop, elite, n, t + 1, stop, next.0, next.1);
        assert r == Mating(pop, elite, n, t + 1, stop, next.0, next.1);
        assert r.0[..|next.0|] == next.0;
        assert r.0[..|pool|] == next.0[..|pool|] == pool;
        PlacedSplit(next.0, r.0, |pool|, |next.0|, |r.0|);
      }
    }

    /** The loop only adds to the cache, and makes a mating only while a slot is left. */
    lemma {:induction false} MatingGrows(pop: seq<Member>, elite: Member, n: nat, t: nat, stop: nat,
                                         pool: seq<Member>, cache: set<seq<Byte>>)
      requires |pop| > 0
      ensures var r := Mating(pop, elite, n, t, stop, pool, cache); cache <= r.1 && (t < r.2 ==> |pool| < n)
      decreases stop - t
    {
      if |pool| < n && t < stop {
        var next := Offer(pop, elite, n, t, pool, cache);
        assert cache <= next.1;
        MatingGrows(pop, elite, n, t + 1, stop, next.0, next.1);
      }
    }

    /** Every mating the loop made had its first child looked up, so it ends in the cache. */
    lemma {:induction false} MatingFirstChildren(pop: seq<Member>, elite: Member, n: nat, t: nat, stop: nat,
                                                 pool: seq<Member>, cache: set<seq<Byte>>)
      requires |pop| > 0
      ensures var r := Mating(pop, elite, n, t, stop, pool, cache);
              forall u :: t <= u < r.2 ==> Offspring(pop, u, elite).0 in r.1
      decreases stop - t
    {
      if |pool| < n && t < stop {
        var next := Offer(pop, elite, n, t, pool, cache);
        OfferLooks(pop, elite, n, t, pool, cache);
        MatingGrows(pop, elite, n, t + 1, stop, next.0, next.1);
        MatingFirstChildren(pop, elite, n, t + 1, stop, next.0, next.1);
      }
    }

    /**
     * Every mating but the last left a slot after its first child, so its
     * second child was looked up too and ends in the cache.
     */
    lemma {:induction false} MatingSecondChildren(pop: seq<Member>, elite: Member, n: nat, t: nat, stop: nat,
                                                  pool: seq<Member>, cache: set<seq<Byte>>)
      requires |pop| > 0
      ensures var r := Mating(pop, elite, n, t, stop, pool, cache);
              forall u :: t <= u && u + 1 < r.2 ==> Offspring(pop, u, elite).1 in r.1
      decreases stop - t
    {
      if |pool| < n && t < stop {
        var next := Offer(pop, elite, n, t, pool, cache);
        OfferLooks(pop, elite, n, t, pool, cache);
        MatingGrows(pop, elite, n, t + 1, stop, next.0, next.1);
        MatingSecondChildren(pop, elite, n, t + 1, stop, next.0, next.1);
        var r := Mating(pop, elite, n, t + 1, stop, next.0, next.1);
        assert Mating(pop, elite, n, t, stop, pool, cache) == r;
        if t + 1 < r.2 {
          assert Offspring(pop, t, elite).1 in r.1;
        }
      }
    }

    /** One pass of the mating loop keeps the pool filled, as the next mating's children are admitted. */
    lemma OfferFilled(pop: seq<Member>, elite: Member, n: nat, t0: nat, t: nat,
                      pool: seq<Member>, cache: set<seq<Byte>>, from: seq<nat>, lru: set<seq<Byte>>)
      returns (from': seq<nat>)
      requires |pool| < n && t0 <= t && PoolFilled(pool, from, lru, cache, pop, elite, t0, t)
      ensures var r := Offer(pop, elite, n, t, pool, cache); PoolFilled(r.0, from', lru, r.1, pop, elite, t0, t + 1)
    {
      var kids := Offspring(pop, t, elite);
      PoolFilledWiden(pool, from, lru, cache, pop, elite, t0, t);
      var first := AdmitCell(pool, cache, kids.0);
      from' := from;
      if kids.0 !in cache {
        PoolFilledAdmit(pool, from, lru, cache, pop, elite, t0, t + 1, kids.0);
        from' := from + [t];
      }
      if |first.0| < n && kids.1 !in first.1 {
        PoolFilledAdmit(first.0, from', lru, first.1, pop, elite, t0, t + 1, kids.1);
        from' := from' + [t];
      }
    }

    /**
     * The whole mating loop keeps the pool filled: started from the elite
     * alone, every later slot of its pool holds a distinct, simulated child
     * of one of the matings it made, unseen by the cache it started from.
     */
    lemma {:induction false} MatingFilled(pop: seq<Member>, elite: Member, n: nat, t0: nat, t: nat, stop: nat,
                                          pool: seq<Member>, cache: set<seq<Byte>>, from: seq<nat>, lru: set<seq<Byte>>)
      returns (from': seq<nat>)
      requires t0 <= t <= stop && PoolFilled(pool, from, lru, cache, pop, elite, t0, t)
      ensures var r := Mating(pop, elite, n, t, stop, pool, cache); PoolFilled(r.0, from', lru, r.1, pop, elite, t0, r.2)
      decreases stop - t
    {
      if n <= |pool| || stop <= t {
        from' := from;
      } else {
        var next := Offer(pop, elite, n, t, pool, cache);
        var f := OfferFilled(pop, elite, n, t0, t, pool, cache, from, lru);
        from' := MatingFilled(pop, elite, n, t0, t + 1, stop, next.0, next.1, f, lru);
      }
    }

    /**
     * One generation on values: the mating loop runs from the population's
     * elite alone; a full pool is sorted by descending fitness and its first
     * |pop| members survive, otherwise the population stays.
     */
    function NextGeneration(pop: seq<Member>, n: nat, t0: nat, maxAttempts: nat, lru: set<seq<Byte>>): (g: Generated)
      requires 0 < |pop| <= n
      ensures |g.population| == |pop| && (!g.full ==> g.population == pop)
    {
      var elite := pop[EliteIndex(pop)];
      var m := Mating(pop, elite, n, t0, t0 + maxAttempts, [elite], lru);
      if |m.0| == n then Generated(SortDesc(m.0, Fitness)[..|pop|], m.1, m.2, true)
      else Generated(pop, m.1, m.2, false)
    }

    /**
     * A generation only adds to the cache, and after a full one every member
     * of the population is the elite or a simulated child whose bits are new
     * to the cache the generation started from.
     */
    lemma GenerationFresh(pop: seq<Member>, n: nat, t0: nat, maxAttempts: nat, lru: set<seq<Byte>>)
      requires 0 < |pop| <= n
      ensures var g := NextGeneration(pop, n, t0, maxAttempts, lru);
              lru <= g.cache &&
              (g.full ==> forall j :: 0 <= j < |g.population| ==>
                 g.population[j] == pop[EliteIndex(pop)] ||
                 (g.population[j].cells in g.cache - lru && g.population[j] == Scored(g.population[j].cells)))
    {
      var elite := pop[EliteIndex(pop)];
      var m := Mating(pop, elite, n, t0, t0 + maxAttempts, [elite], lru);
      var from := MatingFilled(pop, elite, n, t0, t0, t0 + maxAttempts, [elite], lru, [t0], lru);
      var g := NextGeneration(pop, n, t0, maxAttempts, lru);
      if g.full {
        var sorted := SortDesc(m.0, Fitness);
        SortPermutes(m.0, Fitness);
        forall j | 0 <= j < |g.population|
          ensures g.population[j] == elite ||
                  (g.population[j].cells in g.cache - lru && g.population[j] == Scored(g.population[j].cells))
        {
          var x := g.population[j];
          assert x == sorted[j] && x in multiset(sorted);
          var k :| 0 <= k < |m.0| && m.0[k] == x;
        }
      }
    }

    /**
     * One cache lookup of the mating loop: a child whose bits the cache has
     * not seen is added to the cache, simulated and placed in the next slot;
     * a child it has seen is dropped.
     */
    method Admit(pool: seq<Member>, cache: set<seq<Byte>>, c: seq<Byte>)
      returns (pool': seq<Member>, cache': set<seq<Byte>>)
      ensures c in cache ==> pool' == pool && cache' == cache
      ensures c !in cache ==> pool' == pool + [Scored(c)] && cache' == cache + {c}
    {
      pool', cache' := pool, cache;
      if c !in cache {
        cache' := cache + {c};
        pool' := pool + [Scored(c)];
      }
    }

    /**
     * The mating loop. Slot 0 holds the elite. Each attempt selects two
     * parents and mates them; a child whose bits are not yet in the cache is
     * added to the cache, placed in the next slot and simulated; the second
     * child is looked at only while a slot is left. Slots are filled in
     * order, so the pool is returned as the sequence of filled slots. The
     * model stops after `maxAttempts` attempts (`full` is then false); the
     * source keeps trying. What the pool holds is stated of `Mating` by
     * MatingFilled, MatingSpec, MatingFirstChildren and MatingSecondChildren.
     */
    method Breed(elite: Member, lru: set<seq<Byte>>, n: nat, maxAttempts: nat)
      returns (pool: seq<Member>, cache: set<seq<Byte>>, full: bool)
      requires Valid() && n > 0 && populationSize > 0
      modifies this`matings
      ensures (pool, cache, matings) ==
                Mating(population, elite, n, old(matings), old(matings) + maxAttempts, [elite], lru)
      ensures 1 <= |pool| <= n && pool[0] == elite
      ensures full <==> |pool| == n
      ensures old(matings) <= matings <= old(matings) + maxAttempts
      ensures !full ==> matings == old(matings) + maxAttempts
    {
      MatingBounds(population, elite, n, matings, matings + maxAttempts, [elite], lru);
      var t;
      pool, cache, t := MatingLoop(population, elite, lru, n, matings, matings + maxAttempts);
      assert pool[..1] == [elite];
      full := |pool| == n;
      matings := t;
    }

    /** The loop of Breed on the values it reads: matings t0, t0 + 1, ... up to `stop`. */
    method MatingLoop(pop: seq<Member>, elite: Member, lru: set<seq<Byte>>, n: nat, t0: nat, stop: nat)
      returns (pool: seq<Member>, cache: set<seq<Byte>>, t: nat)
      requires |pop| > 0 && n > 0 && t0 <= stop
      ensures (pool, cache, t) == Mating(pop, elite, n, t0, stop, [elite], lru)
    {
      pool := [elite];
      cache := lru;
      t := t0;
      while |pool| < n && t < stop
        invariant t0 <= t <= stop
        invariant Mating(pop, elite, n, t, stop, pool, cache) == Mating(pop, elite, n, t0, stop, [elite], lru)
      {
        pool, cache := MatingPass(pop, elite, n, t, pool, cache);
        t := t + 1;
      }
    }

    /** One pass of the mating loop's body: mating t, its first child, then its second while a slot is left. */
    method MatingPass(pop: seq<Member>, elite: Member, n: nat, t: nat, pool: seq<Member>, cache: set<seq<Byte>>)
      returns (pool': seq<Member>, cache': set<seq<Byte>>)
      requires |pop| > 0
      ensures (pool', cache') == Offer(pop, elite, n, t, pool, cache)
    {
      var g1 := Parent(pop, 2 * t);
      var g2 := Parent(pop, 2 * t + 1);
      var kids := mate(t, g1.cells, g2.cells, elite.cells);
      pool', cache' := Admit(pool, cache, kids.0);
      if |pool'| < n {
        pool', cache' := Admit(pool', cache', kids.1);
      }
    }

    /**
     * The survivor loop: the first `keep` slots copy the sorted pool, the
     * rest hold fresh genomes from BitsetCreate.Go.
     */
    method Survivors(sorted: seq<Member>, keep: nat)
      requires keep <= populationSize <= |sorted|
      modifies this`population, this`created
      ensures Valid()
      ensures forall k :: 0 <= k < keep ==> population[k] == sorted[k]
      ensures forall k :: keep <= k < populationSize ==>
                population[k] == NewMember(create(old(created) + k - keep))
      ensures created == old(created) + populationSize - keep
    {
      var a := new Member[populationSize];
      var i := 0;
      while i < populationSize
        invariant 0 <= i <= populationSize
        invariant created == old(created) + (if i < keep then 0 else i - keep)
        invariant forall k :: 0 <= k < i && k < keep ==> a[k] == sorted[k]
        invariant forall k :: keep <= k < i ==> a[k] == NewMember(create(old(created) + k - keep))
      {
        if i < keep {
          a[i] := sorted[i];
        } else {
          a[i] := NewMember(create(created));
          created := created + 1;
        }
        i := i + 1;
      }
      population := a[..];
    }

    /**
     * One generation after a rejected elite: breed a pool of n =
     * populationSize * MaterExtraRatio slots, rank it, and replace the population.
     */
    method Generation(elite: Member, lru: set<seq<Byte>>, n: nat, maxAttempts: nat)
      returns (cache: set<seq<Byte>>, full: bool)
      requires Valid() && n == PoolSize() && 0 < n
      requires elite == population[EliteIndex(population)]
      modifies this`totalFitness, this`matings, this`population, this`created
      ensures Valid() && old(matings) <= matings
      ensures var m := Mating(old(population), elite, n, old(matings), old(matings) + maxAttempts, [elite], lru);
              cache == m.1 && matings == m.2 && (full <==> |m.0| == n) &&
              (full ==> population <= SortDesc(m.0, Fitness))
      ensures !full ==> population == old(population) && matings == old(matings) + maxAttempts &&
                        Exhausted(old(population), elite, n, old(matings), maxAttempts, lru)
      ensures full ==> elite.fitness <= population[0].fitness
      ensures Generated(population, cache, matings, full) == NextGeneration(old(population), n, old(matings), maxAttempts, lru)
      ensures totalFitness == TotalFitness(old(population))
    {
      BeginSimulation();
      var pool;
      pool, cache, full := Breed(elite, lru, n, maxAttempts);
      if full {
        Replace(pool, elite);
        assert population == SortDesc(pool, Fitness)[..populationSize];
      }
    }

    /**
     * The end of a generation: the full pool is sorted by descending fitness
     * and its first populationSize members become the population.
     */
    method Replace(pool: seq<Member>, elite: Member)
      requires 0 < populationSize <= |pool| && pool[0] == elite
      modifies this`population, this`created
      ensures Valid() && population <= SortDesc(pool, Fitness)
      ensures elite.fitness <= population[0].fitness
    {
      var sorted := SortDesc(pool, Fitness);
      EliteSurvivesSort(pool, elite);
      // randomRatio is 0.0, so int(float64(n) * (1 - randomRatio)) is n itself
      Survivors(sorted, populationSize);
      assert population <= sorted;
    }

    /** No exit test on a prefix of h of length lo+1 .. hi accepted it. */
    ghost predicate Rejected(h: seq<Member>, lo: nat, hi: nat)
      reads this`exitFunc
      requires hi <= |h|
    {
      forall k :: lo < k <= hi ==> !ShouldExit(h[..k])
    }

    lemma RejectedAppend(h: seq<Member>, lo: nat, x: Member)
      requires Rejected(h, lo, |h|)
      ensures Rejected(h + [x], lo, |h|)
      ensures !ShouldExit(h + [x]) ==> Rejected(h + [x], lo, |h| + 1)
    {
      assert forall k :: 0 <= k <= |h| ==> (h + [x])[..k] == h[..k];
      assert (h + [x])[..|h| + 1] == h + [x];
    }

    /** Mater.OnElite, EliteConsumer.OnElite and shouldExit, all given the population's elite. */
    method ShowElite() returns (elite: Member, exit: bool)
      requires Valid() && populationSize > 0
      modifies this`shown
      ensures elite == population[EliteIndex(population)]
      ensures forall j :: 0 <= j < |population| ==> population[j].fitness <= elite.fitness
      ensures shown == old(shown) + [elite]
      ensures exit == ShouldExit(shown)
    {
      elite := GetElite();
      EliteIndexSpec(population);
      shown := shown + [elite];
      exit := ShouldExit(shown);
    }

    /**
     * ShowElite inside the generation loop: the elites shown since index lo
     * stay in ascending fitness, and all of them but an accepted last one
     * were rejected.
     */
    method ShowNext(ghost lo: nat) returns (elite: Member, exit: bool)
      requires Valid() && populationSize > 0 && lo <= |shown|
      requires Rejected(shown, lo, |shown|) && Ascending(shown, lo)
      requires lo < |shown| ==> shown[|shown| - 1].fitness <= population[0].fitness
      modifies this`shown
      ensures elite == population[EliteIndex(population)]
      ensures shown == old(shown) + [elite] && exit == ShouldExit(shown)
      ensures Ascending(shown, lo) && Rejected(shown, lo, |shown| - 1)
      ensures !exit ==> Rejected(shown, lo, |shown|)
    {
      ghost var prev := shown;
      elite, exit := ShowElite();
      AscendingAppend(prev, lo, elite);
      RejectedAppend(prev, lo, elite);
    }

    /** The population once the simulator has scored every member in place. */
    function Simulated(p: seq<Member>): seq<Member>
    {
      seq(|p|, k requires 0 <= k < |p| => Scored(p[k].cells))
    }

    /**
     * The generation loop on values, from a state whose elite was just shown
     * (the last of `shown`) with `gens` generations left and a pool of `n`
     * slots. It stops when the exit test `stop` accepts the last elite;
     * otherwise the run goes on to the next generation.
     */
    function Evolution(stop: seq<Member> -> bool, pop: seq<Member>, lru: set<seq<Byte>>, t: nat, shown: seq<Member>,
                       gens: nat, n: nat, maxAttempts: nat): (o: Outcome)
      requires 0 < |pop| && (n == 0 || |pop| <= n)
      ensures |o.population| == |pop| && o.result != NoPopulation
      ensures o.result != AttemptLimit ==> o.lastStart == 0 && o.lastCache == {}
      decreases gens, 2
    {
      if stop(shown) then Outcome(pop, lru, t, shown, Exited, 0, {})
      else NextRound(stop, pop, lru, t, shown, gens, n, maxAttempts)
    }

    /**
     * Evolution after a rejected elite: it stops when no generation is left
     * or when the pool has no slot; otherwise a generation is bred.
     */
    function NextRound(stop: seq<Member> -> bool, pop: seq<Member>, lru: set<seq<Byte>>, t: nat, shown: seq<Member>,
                       gens: nat, n: nat, maxAttempts: nat): (o: Outcome)
      requires 0 < |pop| && (n == 0 || |pop| <= n)
      ensures |o.population| == |pop| && o.result != NoPopulation
      ensures o.result != AttemptLimit ==> o.lastStart == 0 && o.lastCache == {}
      decreases gens, 1
    {
      if gens == 0 then Outcome(pop, lru, t, shown, GenerationLimit, 0, {})
      else if n == 0 then Outcome(pop, lru, t, shown, PoolIndexPanic, 0, {})
      else Breeding(stop, pop, lru, t, shown, gens, n, maxAttempts)
    }

    /**
     * The rest of Evolution once a generation is bred: a pool that did not
     * fill ends the run at the attempt bound; a full one gives the next
     * population, whose elite is shown, and the run goes on from the cache
     * this generation left.
     */
    function Breeding(stop: seq<Member> -> bool, pop: seq<Member>, lru: set<seq<Byte>>, t: nat, shown: seq<Member>,
                      gens: nat, n: nat, maxAttempts: nat): (o: Outcome)
      requires 0 < |pop| <= n && 0 < gens
      ensures |o.population| == |pop| && o.result != NoPopulation
      ensures o.result != AttemptLimit ==> o.lastStart == 0 && o.lastCache == {}
      decreases gens, 0
    {
      var g := NextGeneration(pop, n, t, maxAttempts, lru);
      if !g.full then Outcome(pop, g.cache, g.matings, shown, AttemptLimit, t, lru)
      else Evolution(stop, g.population, g.cache, g.matings, shown + [g.population[EliteIndex(g.population)]],
                     gens - 1, n, maxAttempts)
    }

    /** Past a rejected elite, with a generation and a slot left, Evolution breeds. */
    lemma EvolutionBreeds(stop: seq<Member> -> bool, pop: seq<Member>, lru: set<seq<Byte>>, t: nat, shown: seq<Member>,
                          gens: nat, n: nat, maxAttempts: nat)
      requires 0 < |pop| <= n && !stop(shown) && 0 < gens
      ensures Evolution(stop, pop, lru, t, shown, gens, n, maxAttempts) == Breeding(stop, pop, lru, t, shown, gens, n, maxAttempts)
    {
    }

    /**
     * One generation of a run, with what the run lemmas use of it: the
     * run continues from the generation's population, cache and mating
     * count after a full generation, and stops at the attempt bound,
     * from the population it bred from, after one that is not.
     */
    lemma EvolutionStep(stop: seq<Member> -> bool, pop: seq<Member>, lru: set<seq<Byte>>, t: nat, shown: seq<Member>,
                        gens: nat, n: nat, maxAttempts: nat) returns (g: Generated)
      requires 0 < |pop| <= n && !stop(shown) && 0 < gens
      ensures |g.population| == |pop| && lru <= g.cache && t <= g.matings
      ensures g.full ==> pop[EliteIndex(pop)].fitness <= g.population[EliteIndex(g.population)].fitness
      ensures !g.full ==> g.matings == t + maxAttempts && Exhausted(pop, pop[EliteIndex(pop)], n, t, maxAttempts, lru)
      ensures Evolution(stop, pop, lru, t, shown, gens, n, maxAttempts) ==
              if g.full then Evolution(stop, g.population, g.cache, g.matings,
                                       shown + [g.population[EliteIndex(g.population)]], gens - 1, n, maxAttempts)
              else Outcome(pop, g.cache, g.matings, shown, AttemptLimit, t, lru)
    {
      EvolutionBreeds(stop, pop, lru, t, shown, gens, n, maxAttempts);
      g := NextGeneration(pop, n, t, maxAttempts, lru);
      var elite := pop[EliteIndex(pop)];
      MatingBounds(pop, elite, n, t, t + maxAttempts, [elite], lru);
      GenerationFresh(pop, n, t, maxAttempts, lru);
      NextGenerationElite(pop, n, t, maxAttempts, lru);
    }

    /**
     * The duplicate cache is threaded through the run: every generation
     * starts from the cache the one before it left, so the cache a run ends
     * with holds every pattern admitted in any of its generations.
     */
    lemma {:induction false} EvolutionCacheGrows(stop: seq<Member> -> bool, pop: seq<Member>, lru: set<seq<Byte>>, t: nat,
                                                 shown: seq<Member>, gens: nat, n: nat, maxAttempts: nat)
      requires 0 < |pop| && (n == 0 || |pop| <= n)
      ensures lru <= Evolution(stop, pop, lru, t, shown, gens, n, maxAttempts).cache
      decreases gens
    {
      if !stop(shown) && gens > 0 && n > 0 {
        var g := EvolutionStep(stop, pop, lru, t, shown, gens, n, maxAttempts);
        if g.full {
          EvolutionCacheGrows(stop, g.population, g.cache, g.matings, shown + [g.population[EliteIndex(g.population)]],
                              gens - 1, n, maxAttempts);
        }
      }
    }

    /** A full generation's elite is at least as fit as the elite it was bred from. */
    lemma NextGenerationElite(pop: seq<Member>, n: nat, t0: nat, maxAttempts: nat, lru: set<seq<Byte>>)
      requires 0 < |pop| <= n
      ensures var g := NextGeneration(pop, n, t0, maxAttempts, lru);
              g.full ==> pop[EliteIndex(pop)].fitness <= g.population[EliteIndex(g.population)].fitness
    {
      var elite := pop[EliteIndex(pop)];
      var m := Mating(pop, elite, n, t0, t0 + maxAttempts, [elite], lru);
      MatingBounds(pop, elite, n, t0, t0 + maxAttempts, [elite], lru);
      if |m.0| == n {
        assert m.0[0] == m.0[..1][0] == elite;
        EliteSurvivesSort(m.0, elite);
        var p := SortDesc(m.0, Fitness)[..|pop|];
        assert p[0] == SortDesc(m.0, Fitness)[0];
        EliteIndexSpec(p);
        assert p[0].fitness <= p[EliteIndex(p)].fitness;
      }
    }

    /**
     * What a run shows: the elites already shown, then one elite per full
     * generation, the last of them the elite of the final population.
     */
    lemma {:induction false} EvolutionShows(stop: seq<Member> -> bool, pop: seq<Member>, lru: set<seq<Byte>>, t: nat,
                                            shown: seq<Member>, gens: nat, n: nat, maxAttempts: nat)
      requires 0 < |pop| && (n == 0 || |pop| <= n) && 0 < |shown| && shown[|shown| - 1] == pop[EliteIndex(pop)]
      ensures var o := Evolution(stop, pop, lru, t, shown, gens, n, maxAttempts);
              |shown| <= |o.shown| && o.shown[..|shown|] == shown &&
              o.shown[|o.shown| - 1] == o.population[EliteIndex(o.population)]
      decreases gens
    {
      if !stop(shown) && gens > 0 && n > 0 {
        var g := EvolutionStep(stop, pop, lru, t, shown, gens, n, maxAttempts);
        if g.full {
          var next := shown + [g.population[EliteIndex(g.population)]];
          EvolutionShows(stop, g.population, g.cache, g.matings, next, gens - 1, n, maxAttempts);
          var o := Evolution(stop, g.population, g.cache, g.matings, next, gens - 1, n, maxAttempts);
          assert o.shown[..|shown|] == o.shown[..|next|][..|shown|];
        }
      }
    }

    /**
     * A run that used up its generations showed exactly one elite per
     * generation, and one that ended on the pool index had no slot.
     */
    lemma {:induction false} EvolutionCounts(stop: seq<Member> -> bool, pop: seq<Member>, lru: set<seq<Byte>>, t: nat,
                                             shown: seq<Member>, gens: nat, n: nat, maxAttempts: nat)
      requires 0 < |pop| && (n == 0 || |pop| <= n)
      ensures var o := Evolution(stop, pop, lru, t, shown, gens, n, maxAttempts);
              (o.result == GenerationLimit ==> |o.shown| == |shown| + gens) &&
              (o.result == PoolIndexPanic ==> n == 0)
      decreases gens
    {
      if !stop(shown) && gens > 0 && n > 0 {
        var g := EvolutionStep(stop, pop, lru, t, shown, gens, n, maxAttempts);
        if g.full {
          EvolutionCounts(stop, g.population, g.cache, g.matings, shown + [g.population[EliteIndex(g.population)]],
                          gens - 1, n, maxAttempts);
        }
      }
    }

    /** The exit test decides a run: it ends at Exited exactly when the test accepts the last elite shown. */
    lemma {:induction false} EvolutionExits(stop: seq<Member> -> bool, pop: seq<Member>, lru: set<seq<Byte>>, t: nat,
                                            shown: seq<Member>, gens: nat, n: nat, maxAttempts: nat)
      requires 0 < |pop| && (n == 0 || |pop| <= n)
      ensures var o := Evolution(stop, pop, lru, t, shown, gens, n, maxAttempts);
              o.result == Exited <==> stop(o.shown)
      decreases gens
    {
      if !stop(shown) && gens > 0 && n > 0 {
        var g := EvolutionStep(stop, pop, lru, t, shown, gens, n, maxAttempts);
        if g.full {
          EvolutionExits(stop, g.population, g.cache, g.matings, shown + [g.population[EliteIndex(g.population)]],
                         gens - 1, n, maxAttempts);
        }
      }
    }

    /** The exit test rejected every elite a run showed before its last one. */
    lemma {:induction false} EvolutionRejects(stop: seq<Member> -> bool, pop: seq<Member>, lru: set<seq<Byte>>, t: nat,
                                              shown: seq<Member>, gens: nat, n: nat, maxAttempts: nat)
      requires 0 < |pop| && (n == 0 || |pop| <= n) && 0 < |shown| && shown[|shown| - 1] == pop[EliteIndex(pop)]
      ensures var o := Evolution(stop, pop, lru, t, shown, gens, n, maxAttempts);
              forall k :: |shown| <= k < |o.shown| ==> !stop(o.shown[..k])
      decreases gens
    {
      if !stop(shown) && gens > 0 && n > 0 {
        var g := EvolutionStep(stop, pop, lru, t, shown, gens, n, maxAttempts);
        if g.full {
          var next := shown + [g.population[EliteIndex(g.population)]];
          EvolutionRejects(stop, g.population, g.cache, g.matings, next, gens - 1, n, maxAttempts);
          EvolutionShows(stop, g.population, g.cache, g.matings, next, gens - 1, n, maxAttempts);
          var o := Evolution(stop, g.population, g.cache, g.matings, next, gens - 1, n, maxAttempts);
          assert o.shown[..|shown|] == o.shown[..|next|][..|shown|] == shown;
        }
      }
    }

    /** The elites a run shows keep ascending in fitness. */
    lemma {:induction false} EvolutionAscends(stop: seq<Member> -> bool, pop: seq<Member>, lru: set<seq<Byte>>, t: nat,
                                              shown: seq<Member>, gens: nat, n: nat, maxAttempts: nat, lo: nat)
      requires 0 < |pop| && (n == 0 || |pop| <= n) && lo < |shown| && shown[|shown| - 1] == pop[EliteIndex(pop)]
      requires Ascending(shown, lo)
      ensures Ascending(Evolution(stop, pop, lru, t, shown, gens, n, maxAttempts).shown, lo)
      decreases gens
    {
      if !stop(shown) && gens > 0 && n > 0 {
        var g := EvolutionStep(stop, pop, lru, t, shown, gens, n, maxAttempts);
        if g.full {
          var e := g.population[EliteIndex(g.population)];
          AscendingAppend(shown, lo, e);
          EvolutionAscends(stop, g.population, g.cache, g.matings, shown + [e], gens - 1, n, maxAttempts, lo);
        }
      }
    }

    /**
     * A run that ends on the attempt bound ended in a generation that
     * started at mating lastStart, from the cache lastCache, and made
     * maxAttempts matings without filling the pool.
     */
    lemma {:induction false} EvolutionExhausts(stop: seq<Member> -> bool, pop: seq<Member>, lru: set<seq<Byte>>, t: nat,
                                               shown: seq<Member>, gens: nat, n: nat, maxAttempts: nat)
      requires 0 < |pop| && (n == 0 || |pop| <= n)
      ensures var o := Evolution(stop, pop, lru, t, shown, gens, n, maxAttempts);
              o.result == AttemptLimit ==>
                t <= o.lastStart && o.matings == o.lastStart + maxAttempts &&
                Exhausted(o.population, o.population[EliteIndex(o.population)], n, o.lastStart, maxAttempts, o.lastCache)
      decreases gens
    {
      if !stop(shown) && gens > 0 && n > 0 {
        var g := EvolutionStep(stop, pop, lru, t, shown, gens, n, maxAttempts);
        if g.full {
          EvolutionExhausts(stop, g.population, g.cache, g.matings, shown + [g.population[EliteIndex(g.population)]],
                            gens - 1, n, maxAttempts);
        }
      }
    }

    /**
     * A run from a population whose elite was just shown after the elites
     * `before`: it shows at least that elite, ends on the elite of its final
     * population, stops at Exited exactly when the exit test accepts the
     * last elite, rejected every elite before that, keeps them ascending in
     * fitness, and ends on the pool index, the generation count or the
     * attempt bound only for the reasons each stands for.
     */
    lemma EvolutionRun(pop: seq<Member>, t: nat, before: seq<Member>, gens: nat, n: nat, maxAttempts: nat)
      requires 0 < |pop| && (n == 0 || |pop| <= n)
      ensures var o := Evolution(ExitTest(), pop, {}, t, before + [pop[EliteIndex(pop)]], gens, n, maxAttempts);
              |o.shown| > |before| && o.shown[..|before|] == before &&
              o.shown[|o.shown| - 1] == o.population[EliteIndex(o.population)] &&
              (o.result == Exited <==> ShouldExit(o.shown)) &&
              Rejected(o.shown, |before|, |o.shown| - 1) && Ascending(o.shown, |before|) &&
              (o.result == PoolIndexPanic ==> n == 0) &&
              (o.result == GenerationLimit ==> |o.shown| == |before| + gens + 1) &&
              (o.result == AttemptLimit ==>
                 t <= o.lastStart && o.matings == o.lastStart + maxAttempts &&
                 Exhausted(o.population, o.shown[|o.shown| - 1], n, o.lastStart, maxAttempts, o.lastCache))
    {
      var first := before + [pop[EliteIndex(pop)]];
      var o := Evolution(ExitTest(), pop, {}, t, first, gens, n, maxAttempts);
      EvolutionShows(ExitTest(), pop, {}, t, first, gens, n, maxAttempts);
      EvolutionCounts(ExitTest(), pop, {}, t, first, gens, n, maxAttempts);
      EvolutionExits(ExitTest(), pop, {}, t, first, gens, n, maxAttempts);
      EvolutionRejects(ExitTest(), pop, {}, t, first, gens, n, maxAttempts);
      EvolutionAscends(ExitTest(), pop, {}, t, first, gens, n, maxAttempts, |before|);
      EvolutionExhausts(ExitTest(), pop, {}, t, first, gens, n, maxAttempts);
      assert o.shown[..|before|] == o.shown[..|first|][..|before|] == before;
      forall k | |before| < k <= |o.shown| - 1
        ensures !ShouldExit(o.shown[..k])
      {
      }
    }

    /**
     * One pass of the generation loop: a generation is bred and, when its
     * pool filled, the new elite is shown to the exit test. When the pool
     * did not fill, the population and the shown elites are unchanged and
     * the generation used up its `maxAttempts` matings. Either way the pass
     * is one step of Evolution.
     */
    method Round(elite: Member, lru: set<seq<Byte>>, n: nat, maxAttempts: nat,
                 ghost stop: seq<Member> -> bool, ghost gens: nat)
      returns (next: Member, exit: bool, cache: set<seq<Byte>>, full: bool)
      requires Valid() && n == PoolSize() && 0 < n
      requires 0 < |shown| && shown[|shown| - 1] == elite && elite == population[EliteIndex(population)]
      requires stop == ExitTest() && !ShouldExit(shown) && 0 < gens
      modifies this`totalFitness, this`matings, this`population, this`created, this`shown
      ensures Valid() && old(matings) <= matings
      ensures full ==> shown == old(shown) + [next] && next == population[EliteIndex(population)]
      ensures full ==> exit == ShouldExit(shown) && elite.fitness <= next.fitness
      ensures !full ==> shown == old(shown) && next == elite && !exit && population == old(population)
      ensures !full ==> matings == old(matings) + maxAttempts && Exhausted(population, elite, n, old(matings), maxAttempts, lru)
      ensures Generated(population, cache, matings, full) == NextGeneration(old(population), n, old(matings), maxAttempts, lru)
      ensures var e := Evolution(stop, old(population), lru, old(matings), old(shown), gens, n, maxAttempts);
              if full then e == Evolution(stop, population, cache, matings, shown, gens - 1, n, maxAttempts)
              else e == Outcome(population, cache, matings, shown, AttemptLimit, old(matings), lru)
    {
      assert shown[..|shown|] == shown;
      EvolutionBreeds(stop, population, lru, matings, shown, gens, n, maxAttempts);
      next, exit := elite, false;
      cache, full := Generation(elite, lru, n, maxAttempts);
      if full {
        next, exit := ShowElite();
      }
    }

    /**
     * The generation loop of Simulate, for at most `maxGenerations` rejected
     * elites and at most `maxAttempts` mating attempts per generation. When
     * the attempts run out, `lastCache` is the duplicate cache the last
     * generation started from: its mating loop made `maxAttempts` matings
     * without filling the pool.
     */
    method Evolve(maxGenerations: nat, maxAttempts: nat)
      returns (r: RunResult, ghost lastStart: nat, ghost lastCache: set<seq<Byte>>)
      requires Valid() && populationSize > 0
      modifies this`totalFitness, this`matings, this`population, this`created, this`shown
      ensures Valid() && r != NoPopulation
      ensures |shown| > |old(shown)| && shown[..|old(shown)|] == old(shown)
      ensures shown[|shown| - 1] == population[EliteIndex(population)]
      ensures r == Exited <==> ShouldExit(shown)
      ensures Rejected(shown, |old(shown)|, |shown| - 1)
      ensures Ascending(shown, |old(shown)|)
      ensures r == PoolIndexPanic ==> materExtraRatio == 0
      ensures r == GenerationLimit ==> |shown| == |old(shown)| + maxGenerations + 1
      ensures r == AttemptLimit ==>
                old(matings) <= lastStart && matings == lastStart + maxAttempts &&
                Exhausted(population, shown[|shown| - 1], PoolSize(), lastStart, maxAttempts, lastCache)
      ensures var p := old(population);
              var o := Evolution(ExitTest(), p, {}, old(matings), old(shown) + [p[EliteIndex(p)]], maxGenerations,
                                 PoolSize(), maxAttempts);
              population == o.population && matings == o.matings && shown == o.shown && r == o.result &&
              lastStart == o.lastStart && lastCache == o.lastCache
    {
      var n := PoolSize();
      ghost var lo := |shown|;
      var elite, exit := ShowNext(lo);
      r, lastStart, lastCache := Generations(elite, exit, n, maxGenerations, maxAttempts);
      EvolutionRun(old(population), old(matings), old(shown), maxGenerations, n, maxAttempts);
    }

    /**
     * The while loop of the generation loop, from the first elite shown and
     * an empty duplicate cache: Round after Round until the exit test
     * accepts, a pool does not fill, the generations run out, or the pool
     * has no slot. The run it makes is Evolution's.
     */
    method Generations(elite: Member, exit: bool, n: nat, maxGenerations: nat, maxAttempts: nat)
      returns (r: RunResult, ghost lastStart: nat, ghost lastCache: set<seq<Byte>>)
      requires Valid() && 0 < populationSize && n == PoolSize()
      requires 0 < |shown| && shown[|shown| - 1] == elite && elite == population[EliteIndex(population)]
      requires exit == ShouldExit(shown)
      modifies this`totalFitness, this`matings, this`population, this`created, this`shown
      ensures Valid()
      ensures var o := Evolution(ExitTest(), old(population), {}, old(matings), old(shown), maxGenerations, n, maxAttempts);
              population == o.population && matings == o.matings && shown == o.shown && r == o.result &&
              lastStart == o.lastStart && lastCache == o.lastCache
    {
      var lru: set<seq<Byte>> := {};
      lastStart, lastCache := 0, {};
      var gen := 0;
      var full := true;
      var next, stopped := elite, exit;
      ghost var stop := ExitTest();
      ghost var o := Evolution(stop, population, lru, matings, shown, maxGenerations, n, maxAttempts);
      while !stopped && full && gen < maxGenerations && n > 0
        invariant Valid() && gen <= maxGenerations && stop == ExitTest()
        invariant 0 < |shown| && shown[|shown| - 1] == next && next == population[EliteIndex(population)]
        invariant stopped == ShouldExit(shown) && (stopped ==> full)
        invariant full ==> lastStart == 0 && lastCache == {} &&
                           o == Evolution(stop, population, lru, matings, shown, maxGenerations - gen, n, maxAttempts)
        invariant !full ==> o == Outcome(population, lru, matings, shown, AttemptLimit, lastStart, lastCache)
        decreases maxGenerations - gen, full
      {
        ghost var before, start := lru, matings;
        next, stopped, lru, full := Round(next, lru, n, maxAttempts, stop, maxGenerations - gen);
        if full {
          gen := gen + 1;
        } else {
          lastStart, lastCache := start, before;
        }
      }
      assert stopped == stop(shown);
      if stopped {
        assert o.result == Exited;
      } else if full {
        assert o == NextRound(stop, population, lru, matings, shown, maxGenerations - gen, n, maxAttempts);
        if gen == maxGenerations {
          assert o.result == GenerationLimit;
        } else {
          assert o.result == PoolIndexPanic;
        }
      }
      r := if stopped then Exited
           else if !full then AttemptLimit
           else if gen == maxGenerations then GenerationLimit
           else PoolIndexPanic;
    }

    /**
     * Simulate: with no population, false at once; otherwise the population
     * is simulated and the generation loop runs.
     */
    method Simulate(maxGenerations: nat, maxAttempts: nat)
      returns (r: RunResult, ghost lastStart: nat, ghost lastCache: set<seq<Byte>>)
      requires Valid()
      modifies this`totalFitness, this`matings, this`population, this`created, this`shown
      ensures Valid()
      ensures r == NoPopulation <==> populationSize == 0
      ensures r == NoPopulation ==> shown == old(shown) && population == old(population)
      ensures r != NoPopulation ==> |shown| > |old(shown)| && shown[..|old(shown)|] == old(shown)
      ensures r != NoPopulation ==> shown[|shown| - 1] == population[EliteIndex(population)]
      ensures r != NoPopulation ==> (r == Exited <==> ShouldExit(shown))
      ensures r != NoPopulation ==> Rejected(shown, |old(shown)|, |shown| - 1)
      ensures Ascending(shown, |old(shown)|)
      ensures r == PoolIndexPanic ==> materExtraRatio == 0
      ensures r == GenerationLimit ==> |shown| == |old(shown)| + maxGenerations + 1
      ensures r == AttemptLimit ==>
                old(matings) <= lastStart && matings == lastStart + maxAttempts &&
                Exhausted(population, shown[|shown| - 1], PoolSize(), lastStart, maxAttempts, lastCache)
      ensures r == NoPopulation ==> matings == old(matings) && created == old(created) && totalFitness == old(totalFitness)
      ensures r != NoPopulation ==>
                var p := Simulated(old(population));
                var o := Evolution(ExitTest(), p, {}, old(matings), old(shown) + [p[EliteIndex(p)]], maxGenerations,
                                   PoolSize(), maxAttempts);
                population == o.population && matings == o.matings && shown == o.shown && r == o.result &&
                lastStart == o.lastStart && lastCache == o.lastCache
    {
      if populationSize == 0 {
        return NoPopulation, 0, {};
      }
      BeginSimulation();
      SimulatePopulation();
      assert shown == old(shown) && matings == old(matings) && population == Simulated(old(population));
      r, lastStart, lastCache := Evolve(maxGenerations, maxAttempts);
    }

    /** SimulateUntil: Simulate with `f` as the exit predicate. */
    method SimulateUntil(f: seq<Member> -> bool, maxGenerations: nat, maxAttempts: nat)
      returns (r: RunResult, ghost lastStart: nat, ghost lastCache: set<seq<Byte>>)
      requires Valid()
      modifies this
      ensures Valid() && exitFunc == Some(f)
      ensures populationSize == old(populationSize) && materExtraRatio == old(materExtraRatio)
      ensures r == NoPopulation <==> populationSize == 0
      ensures r != NoPopulation ==> |shown| > |old(shown)| && (r == Exited <==> f(shown))
      ensures r != NoPopulation ==> forall k :: |old(shown)| < k < |shown| ==> !f(shown[..k])
      ensures Ascending(shown, |old(shown)|)
      ensures r == PoolIndexPanic ==> materExtraRatio == 0
      ensures r == GenerationLimit ==> |shown| == |old(shown)| + maxGenerations + 1
      ensures r == AttemptLimit ==>
                old(matings) <= lastStart && matings == lastStart + maxAttempts &&
                Exhausted(population, shown[|shown| - 1], PoolSize(), lastStart, maxAttempts, lastCache)
      ensures r != NoPopulation ==>
                var p := Simulated(old(population));
                var o := Evolution(f, p, {}, old(matings), old(shown) + [p[EliteIndex(p)]], maxGenerations,
                                   PoolSize(), maxAttempts);
                population == o.population && matings == o.matings && shown == o.shown && r == o.result &&
                lastStart == o.lastStart && lastCache == o.lastCache
    {
      exitFunc := Some(f);
      r, lastStart, lastCache := Simulate(maxGenerations, maxAttempts);
    }

    /** GetPopulation: the current population, populationSize genomes. */
    function GetPopulation(): (p: seq<Member>)
      reads this
      requires Valid()
      ensures |p| == populationSize
    {
      population
    }
  }
}

/**
 * The simulator of goga's function optimizer (function_optimizer/function_optimizer.go):
 * its stability exit rule, a small counter machine over `iter`, `stableIter`
 * and `lastFitness`, and its nil-guarded generation hooks.
 *
 * A Go `func()` hook is modelled by whether it is set (non-nil) and a count
 * of the times it has been invoked.
 */
module FunctionOptimizer {
  import opened Genomes

  /** The three counters ExitFunc updates on every call. */
  datatype Counters = Counters(iter: int, stableIter: int, lastFitness: real)

  /** The thresholds NewFuncAlgo copies into the simulator. */
  datatype Thresholds = Thresholds(minIter: int, stableExitIter: int, stableMinIter: int)

  /** The counters of a freshly built simulator: Go's zero values. */
  const Start := Counters(0, 0, 0.0)

  /**
   * The counters after one ExitFunc call shown an elite of fitness f: the
   * stable count restarts when f differs from the last fitness seen.
   */
  function Tick(c: Counters, f: real): (r: Counters)
    ensures r.iter == c.iter + 1 && r.lastFitness == f
    ensures f != c.lastFitness ==> r.stableIter == 1
    ensures f == c.lastFitness ==> r.stableIter == c.stableIter + 1
  {
    Counters(c.iter + 1, (if f != c.lastFitness then 0 else c.stableIter) + 1, f)
  }

  /** ExitFunc's answer, read off the counters after its updates. */
  predicate Exits(t: Thresholds, c: Counters)
  {
    t.minIter < c.iter && c.stableIter < t.stableExitIter
  }

  /** A call that does not exit invokes onStable (when set) once the stable count passes stableMinIter. */
  predicate WantsOnStable(t: Thresholds, c: Counters)
  {
    !Exits(t, c) && c.stableIter > t.stableMinIter
  }

  /** The counters after ExitFunc has been shown the fitnesses fs, in order. */
  function Run(c: Counters, fs: seq<real>): Counters
  {
    if |fs| == 0 then c else Tick(Run(c, fs[..|fs| - 1]), fs[|fs| - 1])
  }

  /** How many values at the end of fs equal the last one, without a break. */
  function TrailingRun(fs: seq<real>): (n: nat)
    requires |fs| > 0
    ensures 1 <= n <= |fs|
    ensures forall i :: |fs| - n <= i < |fs| ==> fs[i] == fs[|fs| - 1]
    ensures n < |fs| ==> fs[|fs| - n - 1] != fs[|fs| - 1]
  {
    if |fs| == 1 || fs[|fs| - 2] != fs[|fs| - 1] then 1
    else TrailingRun(fs[..|fs| - 1]) + 1
  }

  /** Every value of fs equals x. */
  predicate AllEqual(fs: seq<real>, x: real)
  {
    forall i :: 0 <= i < |fs| ==> fs[i] == x
  }

  /**
   * After a run of calls, `iter` has grown by the number of calls,
   * `lastFitness` is the last fitness seen, and `stableIter` counts the
   * trailing calls whose fitness equalled the last one; when every call saw
   * the fitness the counters started with, the old stable count carries on.
   */
  lemma {:induction false} RunCounters(c: Counters, fs: seq<real>)
    ensures Run(c, fs).iter == c.iter + |fs|
    ensures |fs| > 0 ==> Run(c, fs).lastFitness == fs[|fs| - 1]
    ensures |fs| > 0 ==>
              Run(c, fs).stableIter == if AllEqual(fs, c.lastFitness) then c.stableIter + |fs| else TrailingRun(fs)
    decreases |fs|
  {
    if |fs| > 0 {
      var p := fs[..|fs| - 1];
      RunCounters(c, p);
      assert forall i :: 0 <= i < |p| ==> p[i] == fs[i];
      if |fs| > 1 {
        if AllEqual(p, c.lastFitness) && fs[|fs| - 1] == fs[|fs| - 2] {
          assert AllEqual(fs, c.lastFitness);
        }
        if !AllEqual(fs, c.lastFitness) && fs[|fs| - 1] == fs[|fs| - 2] {
          assert !AllEqual(p, c.lastFitness);
        }
      }
    }
  }

  /**
   * From a fresh simulator, the n-th call (n = |fs|) exits exactly when n is
   * past minIter and the fitness has been the same for fewer than
   * stableExitIter trailing calls (fewer than the calls it has been equal to
   * the initial 0.0, when all were).
   */
  lemma ExitAfterRun(t: Thresholds, fs: seq<real>)
    requires |fs| > 0
    ensures Exits(t, Run(Start, fs)) <==>
              t.minIter < |fs| &&
              (if AllEqual(fs, 0.0) then |fs| else TrailingRun(fs)) < t.stableExitIter
  {
    RunCounters(Start, fs);
  }

  /**
   * As written, once iter is past minIter a call that sees a changed fitness
   * (stable count back at 1) exits whenever stableExitIter is at least 2:
   * a long stable stretch does not trigger the exit, a change does.
   */
  lemma ChangeExitsPastMinIter(t: Thresholds, c: Counters, f: real)
    requires f != c.lastFitness && t.minIter <= c.iter && 2 <= t.stableExitIter
    ensures Exits(t, Tick(c, f)) && Tick(c, f).stableIter == 1
  {
  }

  class FuncMaterSimulator {
    const minIter: int
    const stableExitIter: int
    const stableMinIter: int
    /** Whether the onBegin, onEnd and onStable hooks are non-nil. */
    const hasOnBegin: bool
    const hasOnEnd: bool
    const hasOnStable: bool
    var iter: int
    var stableIter: int
    var lastFitness: real
    /** How often each hook has been invoked. */
    var beginCalls: nat
    var endCalls: nat
    var stableCalls: nat

    function Limits(): Thresholds
      reads this
    {
      Thresholds(minIter, stableExitIter, stableMinIter)
    }

    function State(): Counters
      reads this
    {
      Counters(iter, stableIter, lastFitness)
    }

    /** The simulator NewFuncAlgo builds: thresholds and hooks from the options, counters at zero. */
    constructor (minIter: int, stableExitIter: int, stableMinIter: int,
                 hasOnBegin: bool, hasOnEnd: bool, hasOnStable: bool)
      ensures Limits() == Thresholds(minIter, stableExitIter, stableMinIter)
      ensures this.hasOnBegin == hasOnBegin && this.hasOnEnd == hasOnEnd && this.hasOnStable == hasOnStable
      ensures State() == Start && beginCalls == 0 && endCalls == 0 && stableCalls == 0
    {
      this.minIter := minIter;
      this.stableExitIter := stableExitIter;
      this.stableMinIter := stableMinIter;
      this.hasOnBegin := hasOnBegin;
      this.hasOnEnd := hasOnEnd;
      this.hasOnStable := hasOnStable;
      iter := 0;
      stableIter := 0;
      lastFitness := 0.0;
      beginCalls := 0;
      endCalls := 0;
      stableCalls := 0;
    }

    /** OnBeginSimulation: calls onBegin when it is set. */
    method OnBeginSimulation()
      modifies this`beginCalls
      ensures beginCalls == old(beginCalls) + if hasOnBegin then 1 else 0
    {
      if hasOnBegin {
        beginCalls := beginCalls + 1;
      }
    }

    /** OnEndSimulation: calls onEnd when it is set. */
    method OnEndSimulation()
      modifies this`endCalls
      ensures endCalls == old(endCalls) + if hasOnEnd then 1 else 0
    {
      if hasOnEnd {
        endCalls := endCalls + 1;
      }
    }

    /**
     * ExitFunc: one step of the counter machine on the elite's fitness; the
     * answer is read off the updated counters, and a call that does not exit
     * may invoke onStable.
     */
    method ExitFunc(g: Genome) returns (exit: bool)
      modifies this`iter, this`stableIter, this`lastFitness, this`stableCalls
      ensures State() == Tick(old(State()), g.fitness)
      ensures exit == Exits(Limits(), State())
      ensures stableCalls == old(stableCalls) + if hasOnStable && WantsOnStable(Limits(), State()) then 1 else 0
    {
      if g.GetFitness() != lastFitness {
        stableIter := 0;
      }
      lastFitness := g.GetFitness();
      stableIter := stableIter + 1;
      iter := iter + 1;
      if minIter < iter && stableIter < stableExitIter {
        return true;
      }
      if stableIter > stableMinIter {
        if hasOnStable {
          stableCalls := stableCalls + 1;
        }
      }
      return false;
    }
  }
}

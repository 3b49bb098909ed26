/**
 * The cell-level meaning of goga's recombination operators (mater.go):
 * what the two children's cells are, given the parents' cells and the
 * random draws. The operators themselves, which fill new bitsets in index
 * loops, are in module Maters and are proved against these definitions.
 *
 * `rand.Intn(n)` is modelled as `draw % n` for a raw draw, and
 * `rand.Float32()` as a real draw.
 */
module Crossover {
  import opened Bitsets

  function Max(a: int, b: int): (r: int)
    ensures r >= a && r >= b && (r == a || r == b)
  {
    if a > b then a else b
  }

  function Min(a: int, b: int): (r: int)
    ensures r <= a && r <= b && (r == a || r == b)
  {
    if a < b then a else b
  }

  /** `rand.Intn(n)` as a function of the raw draw: a number in [0, n). Go panics for n <= 0. */
  function Intn(draw: nat, n: nat): (r: nat)
    requires 0 < n
    ensures r < n
  {
    draw % n
  }

  /**
   * The exchange every crossover performs. Below the shorter length, cell i
   * is swapped between the children exactly when swap[i]. Past the shorter
   * length both children keep the zero cells Create gave them: the tail
   * loops of mater.go write into the SHORTER child, where Set fails.
   */
  function Exchange(a: seq<Byte>, b: seq<Byte>, swap: seq<bool>): (c: (seq<Byte>, seq<Byte>))
    requires |swap| == Min(|a|, |b|)
    ensures |c.0| == |a| && |c.1| == |b|
  {
    (seq(|a|, i requires 0 <= i < |a| => if i < |swap| then (if swap[i] then b[i] else a[i]) else 0),
     seq(|b|, i requires 0 <= i < |b| => if i < |swap| then (if swap[i] then a[i] else b[i]) else 0))
  }

  /** One-point crossover swaps the cells from the cut on. */
  function OnePointMask(m: nat, r: nat): (s: seq<bool>)
    ensures |s| == m
  {
    seq(m, i => r <= i)
  }

  /** Two-point crossover swaps the cells in [lo, hi). */
  function TwoPointMask(m: nat, lo: nat, hi: nat): (s: seq<bool>)
    ensures |s| == m
  {
    seq(m, i => lo <= i < hi)
  }

  /** Uniform crossover keeps cell i where its coin is above 0.5 and swaps it otherwise. */
  function UniformMask(coins: seq<real>, m: nat): (s: seq<bool>)
    requires m <= |coins|
    ensures |s| == m
  {
    seq(m, i requires 0 <= i < m => !(coins[i] > 0.5))
  }

  /** The one-point cut `rand.Intn(minSize-1) + 1`. */
  function OnePointCut(cut: nat, m: nat): (r: nat)
    requires 2 <= m
    ensures 1 <= r < m
  {
    Intn(cut, m - 1) + 1
  }

  /** The children of a one-point crossover, each as long as its own parent. */
  function OnePointCells(a: seq<Byte>, b: seq<Byte>, cut: nat): (c: (seq<Byte>, seq<Byte>))
    requires 2 <= Min(|a|, |b|)
    ensures |c.0| == |a| && |c.1| == |b|
  {
    var m := Min(|a|, |b|);
    Exchange(a, b, OnePointMask(m, OnePointCut(cut, m)))
  }

  /**
   * The second two-point cut: the first redraw that differs from the first
   * cut (the `for randIndex1 == randIndex2` loop), or r1 itself when no
   * redraw differs, in which case the source loops forever.
   */
  function Redraw(recuts: seq<nat>, n: nat, r1: nat): (r2: nat)
    requires 0 < n
    ensures r2 == r1 || 1 <= r2 <= n
  {
    if recuts == [] then r1
    else if Intn(recuts[0], n) + 1 != r1 then Intn(recuts[0], n) + 1
    else Redraw(recuts[1..], n, r1)
  }

  /** Some redraw differs from the first cut, so the redraw loop ends. */
  ghost predicate RedrawEnds(recuts: seq<nat>, n: nat, r1: nat)
    requires 0 < n
  {
    exists j :: 0 <= j < |recuts| && Intn(recuts[j], n) + 1 != r1
  }

  /** When the redraw loop ends, the second cut differs from the first and lies in [1, n]. */
  lemma {:induction false} RedrawDiffers(recuts: seq<nat>, n: nat, r1: nat)
    requires 0 < n && RedrawEnds(recuts, n, r1)
    ensures Redraw(recuts, n, r1) != r1 && 1 <= Redraw(recuts, n, r1) <= n
  {
    var j :| 0 <= j < |recuts| && Intn(recuts[j], n) + 1 != r1;
    if Intn(recuts[0], n) + 1 == r1 {
      assert 0 < j && recuts[1..][j - 1] == recuts[j];
      RedrawDiffers(recuts[1..], n, r1);
    }
  }

  /** One round of the redraw loop: a differing first redraw is the answer; otherwise the rest decide. */
  lemma RedrawStep(recuts: seq<nat>, n: nat, r1: nat)
    requires 0 < n && RedrawEnds(recuts, n, r1)
    ensures recuts != []
    ensures Intn(recuts[0], n) + 1 != r1 ==> Redraw(recuts, n, r1) == Intn(recuts[0], n) + 1
    ensures Intn(recuts[0], n) + 1 == r1 ==>
              Redraw(recuts, n, r1) == Redraw(recuts[1..], n, r1) && RedrawEnds(recuts[1..], n, r1)
  {
    var j :| 0 <= j < |recuts| && Intn(recuts[j], n) + 1 != r1;
    if Intn(recuts[0], n) + 1 == r1 {
      assert recuts[1..][j - 1] == recuts[j];
    }
  }

  /** With two overlapping cells every draw gives cut 1, so the redraw loop never ends. */
  lemma TwoPointNeedsThree(recuts: seq<nat>, cut: nat, a: seq<Byte>, b: seq<Byte>)
    requires Min(|a|, |b|) == 2
    ensures !RedrawEnds(recuts, 1, Intn(cut, 1) + 1)
  {
    forall j | 0 <= j < |recuts| ensures Intn(recuts[j], 1) + 1 == Intn(cut, 1) + 1 {
    }
  }

  /** The draws a two-point crossover on an overlap of m cells needs to terminate. */
  ghost predicate TwoPointEnds(m: nat, cut: nat, recuts: seq<nat>)
  {
    2 <= m && RedrawEnds(recuts, m - 1, Intn(cut, m - 1) + 1)
  }

  /** The two cuts in ascending order: the first draw and the redraw that differs from it. */
  function TwoPointCuts(m: nat, cut: nat, recuts: seq<nat>): (r: (nat, nat))
    requires TwoPointEnds(m, cut, recuts)
    ensures 1 <= r.0 < r.1 < m
  {
    var r1 := Intn(cut, m - 1) + 1;
    RedrawDiffers(recuts, m - 1, r1);
    var r2 := Redraw(recuts, m - 1, r1);
    (Min(r1, r2), Max(r1, r2))
  }

  /** The cuts the crossover draws, sorted, are TwoPointCuts. */
  lemma TwoPointCutsOf(m: nat, cut: nat, recuts: seq<nat>, r1: nat, r2: nat)
    requires TwoPointEnds(m, cut, recuts)
    requires r1 == Intn(cut, m - 1) + 1 && r2 == Redraw(recuts, m - 1, r1)
    ensures TwoPointCuts(m, cut, recuts) == (Min(r1, r2), Max(r1, r2))
  {
  }

  /** The children of a two-point crossover, each as long as its own parent. */
  function TwoPointCells(a: seq<Byte>, b: seq<Byte>, cut: nat, recuts: seq<nat>): (c: (seq<Byte>, seq<Byte>))
    requires TwoPointEnds(Min(|a|, |b|), cut, recuts)
    ensures |c.0| == |a| && |c.1| == |b|
  {
    var m := Min(|a|, |b|);
    var r := TwoPointCuts(m, cut, recuts);
    Exchange(a, b, TwoPointMask(m, r.0, r.1))
  }

  /** The children of a uniform crossover, each as long as its own parent. */
  function UniformCells(a: seq<Byte>, b: seq<Byte>, coins: seq<real>): (c: (seq<Byte>, seq<Byte>))
    requires Min(|a|, |b|) <= |coins|
    ensures |c.0| == |a| && |c.1| == |b|
  {
    Exchange(a, b, UniformMask(coins, Min(|a|, |b|)))
  }

  /** Mutate: cell r becomes byte(1 - cell r). */
  function MutateCells(a: seq<Byte>, r: nat): (c: seq<Byte>)
    requires r < |a|
    ensures |c| == |a|
  {
    a[r := Wrap(1 - a[r] as int)]
  }

  // ---- Children as the crossover loops build them ----

  /** Uniform crossover: below the overlap cell k is kept when its coin exceeds 0.5 and swapped otherwise; the rest are zero. */
  lemma UniformSplit(a: seq<Byte>, b: seq<Byte>, coins: seq<real>)
    requires Min(|a|, |b|) <= |coins|
    ensures var m := Min(|a|, |b|);
      var c := UniformCells(a, b, coins);
      |c.0| == |a| && |c.1| == |b| &&
      (forall k :: 0 <= k < m ==> c.0[k] == (if coins[k] > 0.5 then a[k] else b[k]) &&
                                  c.1[k] == (if coins[k] > 0.5 then b[k] else a[k])) &&
      (forall k :: m <= k < |a| ==> c.0[k] == 0) && (forall k :: m <= k < |b| ==> c.1[k] == 0)
  {
    ExchangeTail(a, b, UniformMask(coins, Min(|a|, |b|)));
  }

  // ---- Properties of the operators ----

  /** Below the overlap the children hold the parents' two cells, kept or swapped; past it, zero. */
  lemma ExchangeKeepsPairs(a: seq<Byte>, b: seq<Byte>, swap: seq<bool>, i: nat)
    requires |swap| == Min(|a|, |b|)
    ensures var c := Exchange(a, b, swap);
      (i < |swap| ==> multiset{c.0[i], c.1[i]} == multiset{a[i], b[i]}) &&
      (i < |swap| ==> (c.0[i] == a[i] && c.1[i] == b[i]) || (c.0[i] == b[i] && c.1[i] == a[i])) &&
      (|swap| <= i < |a| ==> c.0[i] == 0) &&
      (|swap| <= i < |b| ==> c.1[i] == 0)
  {
  }

  /** On parents of equal length, exchanging twice with the same mask gives back the parents. */
  lemma ExchangeInvolution(a: seq<Byte>, b: seq<Byte>, swap: seq<bool>)
    requires |a| == |b| && |swap| == |a|
    ensures var c := Exchange(a, b, swap);
      Exchange(c.0, c.1, swap) == (a, b)
  {
    var c := Exchange(a, b, swap);
    var d := Exchange(c.0, c.1, swap);
    assert d.0 == a by {
      forall i | 0 <= i < |a| ensures d.0[i] == a[i] {
      }
    }
    assert d.1 == b by {
      forall i | 0 <= i < |b| ensures d.1[i] == b[i] {
      }
    }
  }

  /** Past the shorter parent the longer parent's cells are lost: the longer child holds zeros there. */
  lemma CrossoverTailIsZero(a: seq<Byte>, b: seq<Byte>, swap: seq<bool>)
    requires |swap| == Min(|a|, |b|) && |b| < |a|
    ensures Exchange(a, b, swap).0[|b|..] == seq(|a| - |b|, _ => 0)
  {
  }

  /** Cell i of each child below the overlap: kept or swapped as the mask says. */
  lemma ExchangeAt(a: seq<Byte>, b: seq<Byte>, swap: seq<bool>, i: nat)
    requires |swap| == Min(|a|, |b|) && i < |swap|
    ensures var c := Exchange(a, b, swap);
      c.0[i] == (if swap[i] then b[i] else a[i]) && c.1[i] == (if swap[i] then a[i] else b[i])
  {
  }

  /** Past the overlap both children hold zeros. */
  lemma ExchangeTail(a: seq<Byte>, b: seq<Byte>, swap: seq<bool>)
    requires |swap| == Min(|a|, |b|)
    ensures var c := Exchange(a, b, swap);
      (forall k :: |swap| <= k < |a| ==> c.0[k] == 0) && (forall k :: |swap| <= k < |b| ==> c.1[k] == 0)
  {
  }

  /** Where the mask is false on [lo, hi), the children keep their own parent's cells there. */
  lemma ExchangeKeeps(a: seq<Byte>, b: seq<Byte>, swap: seq<bool>, lo: nat, hi: nat)
    requires |swap| == Min(|a|, |b|) && lo <= hi <= |swap|
    requires forall i :: lo <= i < hi ==> !swap[i]
    ensures var c := Exchange(a, b, swap);
      forall i :: lo <= i < hi ==> c.0[i] == a[i] && c.1[i] == b[i]
  {
  }

  /** Where the mask is true on [lo, hi), the children hold the other parent's cells there. */
  lemma ExchangeSwaps(a: seq<Byte>, b: seq<Byte>, swap: seq<bool>, lo: nat, hi: nat)
    requires |swap| == Min(|a|, |b|) && lo <= hi <= |swap|
    requires forall i :: lo <= i < hi ==> swap[i]
    ensures var c := Exchange(a, b, swap);
      forall i :: lo <= i < hi ==> c.0[i] == b[i] && c.1[i] == a[i]
  {
  }

  /** One-point crossover: cells before the cut are kept, cells in [cut, minSize) are swapped, the rest are zero. */
  lemma OnePointSplit(a: seq<Byte>, b: seq<Byte>, cut: nat)
    requires 2 <= Min(|a|, |b|)
    ensures var m := Min(|a|, |b|);
      var r := OnePointCut(cut, m);
      var c := OnePointCells(a, b, cut);
      1 <= r < m && |c.0| == |a| && |c.1| == |b| &&
      (forall k :: 0 <= k < r ==> c.0[k] == a[k] && c.1[k] == b[k]) &&
      (forall k :: r <= k < m ==> c.0[k] == b[k] && c.1[k] == a[k]) &&
      (forall k :: m <= k < |a| ==> c.0[k] == 0) && (forall k :: m <= k < |b| ==> c.1[k] == 0)
  {
    var m := Min(|a|, |b|);
    var r := OnePointCut(cut, m);
    var mask := OnePointMask(m, r);
    ExchangeKeeps(a, b, mask, 0, r);
    ExchangeSwaps(a, b, mask, r, m);
    ExchangeTail(a, b, mask);
  }

  /** Two-point crossover: only [lo, hi) is swapped, cells below minSize elsewhere are kept, the rest are zero. */
  lemma TwoPointSplit(a: seq<Byte>, b: seq<Byte>, cut: nat, recuts: seq<nat>)
    requires TwoPointEnds(Min(|a|, |b|), cut, recuts)
    ensures var m := Min(|a|, |b|);
      var (lo, hi) := TwoPointCuts(m, cut, recuts);
      var c := TwoPointCells(a, b, cut, recuts);
      |c.0| == |a| && |c.1| == |b| &&
      (forall k :: 0 <= k < lo ==> c.0[k] == a[k] && c.1[k] == b[k]) &&
      (forall k :: lo <= k < hi ==> c.0[k] == b[k] && c.1[k] == a[k]) &&
      (forall k :: hi <= k < m ==> c.0[k] == a[k] && c.1[k] == b[k]) &&
      (forall k :: m <= k < |a| ==> c.0[k] == 0) && (forall k :: m <= k < |b| ==> c.1[k] == 0)
  {
    var m := Min(|a|, |b|);
    var (lo, hi) := TwoPointCuts(m, cut, recuts);
    var mask := TwoPointMask(m, lo, hi);
    assert TwoPointCells(a, b, cut, recuts) == Exchange(a, b, mask);
    ExchangeKeeps(a, b, mask, 0, lo);
    ExchangeSwaps(a, b, mask, lo, hi);
    ExchangeKeeps(a, b, mask, hi, m);
    ExchangeTail(a, b, mask);
  }

  /** Byte flip is its own inverse: byte(1 - byte(1 - x)) == x. */
  lemma FlipFlip(x: Byte)
    ensures Wrap(1 - Wrap(1 - x as int) as int) == x
  {
    if x <= 1 {
      assert Wrap(1 - x as int) == 1 - x;
    } else {
      assert Wrap(1 - x as int) == 257 - x;
      assert 1 - Wrap(1 - x as int) as int == x - 256;
    }
  }

  /** Byte flip always changes the cell: 1 - x and x differ in parity. */
  lemma FlipChanges(x: Byte)
    ensures Wrap(1 - x as int) != x
  {
    if x <= 1 {
      assert Wrap(1 - x as int) == 1 - x;
    } else {
      assert Wrap(1 - x as int) == 257 - x;
    }
  }

  /** Mutation changes exactly the chosen cell. */
  lemma MutateChangesOnlyAt(a: seq<Byte>, r: nat)
    requires r < |a|
    ensures var c := MutateCells(a, r);
      c[r] != a[r] && forall i :: 0 <= i < |a| && i != r ==> c[i] == a[i]
  {
    FlipChanges(a[r]);
  }

  /** Mutating the same cell twice gives back the parent. */
  lemma MutateInvolution(a: seq<Byte>, r: nat)
    requires r < |a|
    ensures MutateCells(MutateCells(a, r), r) == a
  {
    FlipFlip(a[r]);
  }
}

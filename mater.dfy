/**
 * The maters of goga (mater.go): the four recombination operators, written
 * as the index loops that fill freshly created bitsets, the null mater, and
 * the mater that runs an ordered chain of (probability, operator, useElite)
 * entries over a pair of parents.
 *
 * Each operator is proved against its cell-level definition in module
 * Crossover; the chain is proved against ChainCells below.
 */
module Maters {
  import opened Bitsets
  import opened Genomes
  import opened Crossover

  /** The operators a chain entry can name. */
  datatype Operator = OnePoint | TwoPoint | Uniform | Mutation

  /** MaterFunctionProbability: operator F is tried with probability P; UseElite feeds it the stored elite. */
  datatype MaterFunctionProbability = Entry(p: real, f: Operator, useElite: bool)

  /**
   * The random draws one operator call consumes: the first `rand.Intn` cut,
   * the two-point redraws, the uniform coins and the mutated cell's draw.
   */
  datatype OpDraws = OpDraws(cut: nat, recuts: seq<nat>, coins: seq<real>, bit: nat)

  /** The draws one chain entry consumes: its `rand.Float32()` and its operator's draws. */
  datatype EntryDraw = EntryDraw(u: real, op: OpDraws)

  /**
   * The draws are enough for the operator on parents of s1 and s2 cells, and
   * the operator does not panic: `rand.Intn` needs a positive bound and the
   * two-point redraw loop must end.
   */
  ghost predicate DrawsFit(f: Operator, d: OpDraws, s1: nat, s2: nat)
  {
    match f
    case OnePoint => 2 <= Min(s1, s2)
    case TwoPoint => TwoPointEnds(Min(s1, s2), d.cut, d.recuts)
    case Uniform => Min(s1, s2) <= |d.coins|
    case Mutation => 1 <= s1
  }

  /** The children's cells an operator produces from the parents' cells. */
  function ApplyCells(f: Operator, d: OpDraws, a: seq<Byte>, b: seq<Byte>): (c: (seq<Byte>, seq<Byte>))
    requires DrawsFit(f, d, |a|, |b|)
    ensures |c.0| == |a| && |c.1| == |b|
  {
    match f
    case OnePoint => OnePointCells(a, b, d.cut)
    case TwoPoint => TwoPointCells(a, b, d.cut, d.recuts)
    case Uniform => UniformCells(a, b, d.coins)
    case Mutation => (MutateCells(a, Intn(d.bit, |a|)), b)
  }

  /**
   * The chain can run: every entry that fires has the draws its operator
   * needs on the pair it receives, and an entry that uses the elite fires
   * only when an elite is stored. Child 1 always keeps the first parent's
   * length; the second length becomes the elite's after an elite entry.
   */
  ghost predicate ChainFits(config: seq<MaterFunctionProbability>, draws: seq<EntryDraw>,
                            s1: nat, s2: nat, es: nat, hasElite: bool)
    requires |draws| == |config|
    decreases |config|
  {
    if config == [] then true
    else
      var e, d := config[0], draws[0];
      var fires := d.u < e.p;
      var second := if e.useElite then es else s2;
      (fires ==> (e.useElite ==> hasElite) && DrawsFit(e.f, d.op, s1, second)) &&
      ChainFits(config[1..], draws[1..], s1, if fires then second else s2, es, hasElite)
  }

  /**
   * The cells `mater.Go` returns: entry k fires exactly when its draw is
   * below its probability, and then its children replace the running pair;
   * entries are tried once each, in order.
   */
  function ChainCells(config: seq<MaterFunctionProbability>, draws: seq<EntryDraw>,
                      a: seq<Byte>, b: seq<Byte>, elite: seq<Byte>, hasElite: bool): (c: (seq<Byte>, seq<Byte>))
    requires |draws| == |config|
    requires ChainFits(config, draws, |a|, |b|, |elite|, hasElite)
    ensures |c.0| == |a|
    decreases |config|
  {
    if config == [] then (a, b)
    else
      var e, d := config[0], draws[0];
      if d.u < e.p then
        var c := ApplyCells(e.f, d.op, a, if e.useElite then elite else b);
        ChainCells(config[1..], draws[1..], c.0, c.1, elite, hasElite)
      else
        ChainCells(config[1..], draws[1..], a, b, elite, hasElite)
  }

  // ---- Properties of the chain ----

  /** When no entry fires, `Go` hands back the parents' cells. */
  lemma {:induction false} ChainNoneFires(config: seq<MaterFunctionProbability>, draws: seq<EntryDraw>,
                                          a: seq<Byte>, b: seq<Byte>, elite: seq<Byte>, hasElite: bool)
    requires |draws| == |config|
    requires forall k :: 0 <= k < |config| ==> !(draws[k].u < config[k].p)
    ensures ChainFits(config, draws, |a|, |b|, |elite|, hasElite)
    ensures ChainCells(config, draws, a, b, elite, hasElite) == (a, b)
    decreases |config|
  {
    if config != [] {
      assert forall k :: 0 <= k < |config| - 1 ==> config[1..][k] == config[k + 1] && draws[1..][k] == draws[k + 1];
      ChainNoneFires(config[1..], draws[1..], a, b, elite, hasElite);
    }
  }

  /**
   * On genomes of one size n (as the engine makes them), the chain can run
   * whenever each entry's draws fit that size and elite entries have an elite.
   */
  lemma {:induction false} ChainFitsUniform(config: seq<MaterFunctionProbability>, draws: seq<EntryDraw>,
                                            n: nat, hasElite: bool)
    requires |draws| == |config|
    requires forall k :: 0 <= k < |config| ==>
               DrawsFit(config[k].f, draws[k].op, n, n) && (config[k].useElite ==> hasElite)
    ensures ChainFits(config, draws, n, n, n, hasElite)
    decreases |config|
  {
    if config != [] {
      assert forall k :: 0 <= k < |config| - 1 ==> config[1..][k] == config[k + 1] && draws[1..][k] == draws[k + 1];
      ChainFitsUniform(config[1..], draws[1..], n, hasElite);
    }
  }

  /** On genomes of one size n, every child the chain produces has n cells. */
  lemma {:induction false} ChainKeepsSize(config: seq<MaterFunctionProbability>, draws: seq<EntryDraw>,
                                          a: seq<Byte>, b: seq<Byte>, elite: seq<Byte>, hasElite: bool)
    requires |draws| == |config| && |a| == |b| == |elite|
    requires ChainFits(config, draws, |a|, |b|, |elite|, hasElite)
    ensures var c := ChainCells(config, draws, a, b, elite, hasElite);
      |c.0| == |a| && |c.1| == |a|
    decreases |config|
  {
    if config != [] {
      var e, d := config[0], draws[0];
      if d.u < e.p {
        var c := ApplyCells(e.f, d.op, a, if e.useElite then elite else b);
        ChainKeepsSize(config[1..], draws[1..], c.0, c.1, elite, hasElite);
      } else {
        ChainKeepsSize(config[1..], draws[1..], a, b, elite, hasElite);
      }
    }
  }

  /** A single entry of probability 1 always fires: the chain's result is that operator's. */
  lemma SingleCertainEntry(e: MaterFunctionProbability, d: EntryDraw, a: seq<Byte>, b: seq<Byte>, elite: seq<Byte>)
    requires e.p == 1.0 && 0.0 <= d.u < 1.0 && !e.useElite
    requires DrawsFit(e.f, d.op, |a|, |b|)
    ensures ChainFits([e], [d], |a|, |b|, |elite|, false)
    ensures ChainCells([e], [d], a, b, elite, false) == ApplyCells(e.f, d.op, a, b)
  {
    assert [e][1..] == [];
    assert [d][1..] == [];
  }

  // ---- The operators ----

  /** b is a bitset of n cells over an array of its own, as Create leaves it. */
  ghost predicate Tight(b: Bitset, n: nat)
    reads b
  {
    b.Valid() && b.off == 0 && b.size == n && b.len == n && b.buf.Length == n
  }

  /** Two new children of the parents' sizes, all zeros, as Create makes them. */
  method CreateChildren(p1: Bitset, p2: Bitset) returns (b1: Bitset, b2: Bitset)
    requires p1.Valid() && p2.Valid()
    ensures fresh(b1) && fresh(b2) && fresh(b1.buf) && fresh(b2.buf) && b1.buf != b2.buf
    ensures Tight(b1, p1.size) && Tight(b2, p2.size)
    ensures forall k :: 0 <= k < b1.buf.Length ==> b1.buf[k] == 0
    ensures forall k :: 0 <= k < b2.buf.Length ==> b2.buf[k] == 0
  {
    b1 := new Bitset.Empty();
    b2 := new Bitset.Empty();
    b1.Create(p1.GetSize());
    b2.Create(p2.GetSize());
  }

  /** The children's arrays are their own, apart from each other and from the parents'. */
  ghost predicate Apart(p1: Bitset, p2: Bitset, b1: Bitset, b2: Bitset)
    reads p1, p2, b1, b2
  {
    b1.buf != b2.buf && b1.buf != p1.buf && b1.buf != p2.buf && b2.buf != p1.buf && b2.buf != p2.buf
  }

  /** One `dst.Set(i, src.Get(i))` below both sizes: cell i of dst becomes src's, the others stay. */
  method CopyCell(src: Bitset, dst: Bitset, i: nat)
    requires src.Valid() && dst.Valid() && dst.off == 0 && i < src.size && i < dst.size
    modifies dst.buf
    ensures dst.buf[i] == old(src.Cells())[i]
    ensures forall k :: 0 <= k < dst.buf.Length && k != i ==> dst.buf[k] == old(dst.buf[k])
  {
    var _ := dst.Set(i, src.Get(i));
  }

  /**
   * `for i := lo; i < hi; i++ { b1.Set(i, g1Bits.Get(i)); b2.Set(i, g2Bits.Get(i)) }`:
   * where the target children w keep their own parent's cells on [lo, hi),
   * a prefix of the children that agrees with w grows from lo to hi.
   */
  method KeepLoop(p1: Bitset, p2: Bitset, b1: Bitset, b2: Bitset, lo: nat, hi: nat,
                  ghost a: seq<Byte>, ghost b: seq<Byte>, ghost w: (seq<Byte>, seq<Byte>))
    requires p1.Valid() && p2.Valid() && p1.Cells() == a && p2.Cells() == b && lo <= hi <= Min(|a|, |b|)
    requires Tight(b1, |a|) && Tight(b2, |b|) && Apart(p1, p2, b1, b2) && |w.0| == |a| && |w.1| == |b|
    requires forall k :: lo <= k < hi ==> w.0[k] == a[k] && w.1[k] == b[k]
    requires forall k :: 0 <= k < |a| ==> b1.buf[k] == if k < lo then w.0[k] else 0
    requires forall k :: 0 <= k < |b| ==> b2.buf[k] == if k < lo then w.1[k] else 0
    modifies b1.buf, b2.buf
    ensures p1.Cells() == a && p2.Cells() == b
    ensures forall k :: 0 <= k < |a| ==> b1.buf[k] == if k < hi then w.0[k] else 0
    ensures forall k :: 0 <= k < |b| ==> b2.buf[k] == if k < hi then w.1[k] else 0
  {
    var i := lo;
    while i < hi
      invariant lo <= i <= hi
      invariant p1.Cells() == a && p2.Cells() == b
      invariant forall k :: 0 <= k < |a| ==> b1.buf[k] == if k < i then w.0[k] else 0
      invariant forall k :: 0 <= k < |b| ==> b2.buf[k] == if k < i then w.1[k] else 0
    {
      CopyCell(p1, b1, i);
      CopyCell(p2, b2, i);
      i := i + 1;
    }
  }

  /**
   * `for i := lo; i < hi; i++ { b2.Set(i, g1Bits.Get(i)); b1.Set(i, g2Bits.Get(i)) }`:
   * where the target children w hold the other parent's cells on [lo, hi),
   * a prefix of the children that agrees with w grows from lo to hi.
   */
  method SwapLoop(p1: Bitset, p2: Bitset, b1: Bitset, b2: Bitset, lo: nat, hi: nat,
                  ghost a: seq<Byte>, ghost b: seq<Byte>, ghost w: (seq<Byte>, seq<Byte>))
    requires p1.Valid() && p2.Valid() && p1.Cells() == a && p2.Cells() == b && lo <= hi <= Min(|a|, |b|)
    requires Tight(b1, |a|) && Tight(b2, |b|) && Apart(p1, p2, b1, b2) && |w.0| == |a| && |w.1| == |b|
    requires forall k :: lo <= k < hi ==> w.0[k] == b[k] && w.1[k] == a[k]
    requires forall k :: 0 <= k < |a| ==> b1.buf[k] == if k < lo then w.0[k] else 0
    requires forall k :: 0 <= k < |b| ==> b2.buf[k] == if k < lo then w.1[k] else 0
    modifies b1.buf, b2.buf
    ensures p1.Cells() == a && p2.Cells() == b
    ensures forall k :: 0 <= k < |a| ==> b1.buf[k] == if k < hi then w.0[k] else 0
    ensures forall k :: 0 <= k < |b| ==> b2.buf[k] == if k < hi then w.1[k] else 0
  {
    var i := lo;
    while i < hi
      invariant lo <= i <= hi
      invariant p1.Cells() == a && p2.Cells() == b
      invariant forall k :: 0 <= k < |a| ==> b1.buf[k] == if k < i then w.0[k] else 0
      invariant forall k :: 0 <= k < |b| ==> b2.buf[k] == if k < i then w.1[k] else 0
    {
      CopyCell(p1, b2, i);
      CopyCell(p2, b1, i);
      i := i + 1;
    }
  }

  /**
   * The tail loop every crossover ends with: it copies the longer parent's
   * tail into the SHORTER child, where each Set fails, so neither child changes.
   */
  method TailLoop(p1: Bitset, p2: Bitset, b1: Bitset, b2: Bitset)
    requires p1.Valid() && p2.Valid()
    requires Tight(b1, p1.size) && Tight(b2, p2.size) && b1.buf != b2.buf
    modifies b1.buf, b2.buf
    ensures b1.buf[..] == old(b1.buf[..]) && b2.buf[..] == old(b2.buf[..])
  {
    var minSize := Min(p1.GetSize(), p2.GetSize());
    var maxSize := Max(p1.GetSize(), p2.GetSize());
    if p1.GetSize() > p2.GetSize() {
      var i := minSize;
      while i < maxSize
        invariant minSize <= i
        invariant b1.buf[..] == old(b1.buf[..]) && b2.buf[..] == old(b2.buf[..])
      {
        var _ := b2.Set(i, p1.Get(i));
        i := i + 1;
      }
    } else {
      var i := minSize;
      while i < maxSize
        invariant minSize <= i
        invariant b1.buf[..] == old(b1.buf[..]) && b2.buf[..] == old(b2.buf[..])
      {
        var _ := b1.Set(i, p2.Get(i));
        i := i + 1;
      }
    }
  }

  /** The end of every crossover: the tail loop, then the two `NewGenome` calls around the children. */
  method Finish(p1: Bitset, p2: Bitset, b1: Bitset, b2: Bitset,
                ghost a: seq<Byte>, ghost b: seq<Byte>, ghost w: (seq<Byte>, seq<Byte>))
    returns (c1: Genome, c2: Genome)
    requires p1.Valid() && p2.Valid() && p1.Cells() == a && p2.Cells() == b
    requires Tight(b1, |a|) && Tight(b2, |b|) && Apart(p1, p2, b1, b2)
    requires b1.buf[..] == w.0 && b2.buf[..] == w.1
    modifies b1.buf, b2.buf
    ensures p1.Cells() == a && p2.Cells() == b
    ensures fresh(c1) && fresh(c2) && c1.bits.buf == b1.buf && c2.bits.buf == b2.buf
    ensures c1.bits.Valid() && c2.bits.Valid() && (c1.bits.Cells(), c2.bits.Cells()) == w
  {
    TailLoop(p1, p2, b1, b2);
    assert p1.Cells() == a && p2.Cells() == b;
    assert b1.Cells() == w.0 && b2.Cells() == w.1;
    c1 := new Genome(b1);
    c2 := new Genome(b2);
  }

  /** OnePointCrossover: children of each parent's length, the cells past a random cut swapped. */
  method OnePointCrossover(g1: Genome, g2: Genome, cut: nat) returns (c1: Genome, c2: Genome)
    requires g1.bits.Valid() && g2.bits.Valid()
    requires 2 <= Min(g1.bits.size, g2.bits.size)
    ensures fresh(c1) && fresh(c2) && fresh(c1.bits.buf) && fresh(c2.bits.buf)
    ensures c1.bits.Valid() && c2.bits.Valid()
    ensures (c1.bits.Cells(), c2.bits.Cells()) == OnePointCells(g1.bits.Cells(), g2.bits.Cells(), cut)
  {
    var g1Bits, g2Bits := g1.GetBits(), g2.GetBits();
    ghost var a, b := g1Bits.Cells(), g2Bits.Cells();
    ghost var w := OnePointCells(a, b, cut);
    OnePointSplit(a, b, cut);
    var b1, b2 := CreateChildren(g1Bits, g2Bits);
    var minSize := Min(g1Bits.GetSize(), g2Bits.GetSize());
    var randIndex := Intn(cut, minSize - 1) + 1;
    KeepLoop(g1Bits, g2Bits, b1, b2, 0, randIndex, a, b, w);
    SwapLoop(g1Bits, g2Bits, b1, b2, randIndex, minSize, a, b, w);
    assert b1.buf[..] == w.0 && b2.buf[..] == w.1;
    c1, c2 := Finish(g1Bits, g2Bits, b1, b2, a, b, w);
    assert g1.bits.Cells() == a && g2.bits.Cells() == b;
  }

  /** The two cuts of TwoPointCrossover in ascending order: a first draw, the redraw loop, and the swap. */
  method DrawTwoCuts(minSize: nat, cut: nat, recuts: seq<nat>) returns (randIndex1: nat, randIndex2: nat)
    requires TwoPointEnds(minSize, cut, recuts)
    ensures (randIndex1, randIndex2) == TwoPointCuts(minSize, cut, recuts)
  {
    randIndex1 := Intn(cut, minSize - 1) + 1;
    randIndex2 := RedrawLoop(recuts, minSize - 1, randIndex1);
    TwoPointCutsOf(minSize, cut, recuts, randIndex1, randIndex2);
    if randIndex1 > randIndex2 {
      randIndex1, randIndex2 := randIndex2, randIndex1;
    }
  }

  /** TwoPointCrossover: only the cells between two distinct random cuts are swapped. */
  method TwoPointCrossover(g1: Genome, g2: Genome, cut: nat, recuts: seq<nat>) returns (c1: Genome, c2: Genome)
    requires g1.bits.Valid() && g2.bits.Valid()
    requires TwoPointEnds(Min(g1.bits.size, g2.bits.size), cut, recuts)
    ensures fresh(c1) && fresh(c2) && fresh(c1.bits.buf) && fresh(c2.bits.buf)
    ensures c1.bits.Valid() && c2.bits.Valid()
    ensures (c1.bits.Cells(), c2.bits.Cells()) == TwoPointCells(g1.bits.Cells(), g2.bits.Cells(), cut, recuts)
  {
    var g1Bits, g2Bits := g1.GetBits(), g2.GetBits();
    ghost var a, b := g1Bits.Cells(), g2Bits.Cells();
    ghost var w := TwoPointCells(a, b, cut, recuts);
    TwoPointSplit(a, b, cut, recuts);
    var b1, b2 := CreateChildren(g1Bits, g2Bits);
    var minSize := Min(g1Bits.GetSize(), g2Bits.GetSize());
    var randIndex1, randIndex2 := DrawTwoCuts(minSize, cut, recuts);
    KeepLoop(g1Bits, g2Bits, b1, b2, 0, randIndex1, a, b, w);
    SwapLoop(g1Bits, g2Bits, b1, b2, randIndex1, randIndex2, a, b, w);
    KeepLoop(g1Bits, g2Bits, b1, b2, randIndex2, minSize, a, b, w);
    assert b1.buf[..] == w.0 && b2.buf[..] == w.1;
    c1, c2 := Finish(g1Bits, g2Bits, b1, b2, a, b, w);
    assert g1.bits.Cells() == a && g2.bits.Cells() == b;
  }

  /** The `for randIndex1 == randIndex2` loop: draws until a cut differs from the first. */
  method RedrawLoop(recuts: seq<nat>, n: nat, r1: nat) returns (r2: nat)
    requires 0 < n && RedrawEnds(recuts, n, r1)
    ensures r2 == Redraw(recuts, n, r1) && r2 != r1 && 1 <= r2 <= n
  {
    r2 := r1;
    var j := 0;
    assert recuts[0..] == recuts;
    while r1 == r2
      invariant j <= |recuts|
      invariant r2 == r1 ==> Redraw(recuts[j..], n, r1) == Redraw(recuts, n, r1)
      invariant r2 != r1 ==> r2 == Redraw(recuts, n, r1)
      invariant r2 == r1 ==> RedrawEnds(recuts[j..], n, r1)
      decreases |recuts| - j, if r1 == r2 then 1 else 0
    {
      RedrawStep(recuts[j..], n, r1);
      assert recuts[j..][1..] == recuts[j + 1..];
      r2 := Intn(recuts[j], n) + 1;
      j := j + 1;
    }
    RedrawDiffers(recuts, n, r1);
  }

  /**
   * The loop of UniformCrossover: cell i goes to the child of its own parent
   * when its coin exceeds 0.5 and to the other child otherwise.
   */
  method UniformLoop(p1: Bitset, p2: Bitset, b1: Bitset, b2: Bitset, coins: seq<real>,
                     ghost a: seq<Byte>, ghost b: seq<Byte>, ghost w: (seq<Byte>, seq<Byte>))
    requires p1.Valid() && p2.Valid() && p1.Cells() == a && p2.Cells() == b && Min(|a|, |b|) <= |coins|
    requires Tight(b1, |a|) && Tight(b2, |b|) && Apart(p1, p2, b1, b2) && |w.0| == |a| && |w.1| == |b|
    requires forall k :: 0 <= k < Min(|a|, |b|) ==>
               w.0[k] == (if coins[k] > 0.5 then a[k] else b[k]) && w.1[k] == (if coins[k] > 0.5 then b[k] else a[k])
    requires forall k :: 0 <= k < |a| ==> b1.buf[k] == 0
    requires forall k :: 0 <= k < |b| ==> b2.buf[k] == 0
    modifies b1.buf, b2.buf
    ensures p1.Cells() == a && p2.Cells() == b
    ensures forall k :: 0 <= k < |a| ==> b1.buf[k] == if k < Min(|a|, |b|) then w.0[k] else 0
    ensures forall k :: 0 <= k < |b| ==> b2.buf[k] == if k < Min(|a|, |b|) then w.1[k] else 0
  {
    var minSize := Min(p1.GetSize(), p2.GetSize());
    var i := 0;
    while i < minSize
      invariant i <= minSize
      invariant p1.Cells() == a && p2.Cells() == b
      invariant forall k :: 0 <= k < |a| ==> b1.buf[k] == if k < i then w.0[k] else 0
      invariant forall k :: 0 <= k < |b| ==> b2.buf[k] == if k < i then w.1[k] else 0
    {
      if coins[i] > 0.5 {
        KeepLoop(p1, p2, b1, b2, i, i + 1, a, b, w);
      } else {
        SwapLoop(p1, p2, b1, b2, i, i + 1, a, b, w);
      }
      i := i + 1;
    }
  }

  /** UniformCrossover: below the shorter length, cell i is kept when its coin exceeds 0.5 and swapped otherwise. */
  method UniformCrossover(g1: Genome, g2: Genome, coins: seq<real>) returns (c1: Genome, c2: Genome)
    requires g1.bits.Valid() && g2.bits.Valid()
    requires Min(g1.bits.size, g2.bits.size) <= |coins|
    ensures fresh(c1) && fresh(c2) && fresh(c1.bits.buf) && fresh(c2.bits.buf)
    ensures c1.bits.Valid() && c2.bits.Valid()
    ensures (c1.bits.Cells(), c2.bits.Cells()) == UniformCells(g1.bits.Cells(), g2.bits.Cells(), coins)
  {
    var g1Bits, g2Bits := g1.GetBits(), g2.GetBits();
    ghost var a, b := g1Bits.Cells(), g2Bits.Cells();
    ghost var w := UniformCells(a, b, coins);
    UniformSplit(a, b, coins);
    var b1, b2 := CreateChildren(g1Bits, g2Bits);
    UniformLoop(g1Bits, g2Bits, b1, b2, coins, a, b, w);
    assert b1.buf[..] == w.0 && b2.buf[..] == w.1;
    c1, c2 := Finish(g1Bits, g2Bits, b1, b2, a, b, w);
    assert g1.bits.Cells() == a && g2.bits.Cells() == b;
  }

  /**
   * Mutate: child 1 is a copy of g1 with one random cell flipped; child 2
   * wraps g2's own bitset, sharing its cells.
   */
  method Mutate(g1: Genome, g2: Genome, bit: nat) returns (c1: Genome, c2: Genome)
    requires g1.bits.Valid() && g2.bits.Valid()
    requires 1 <= g1.bits.size
    ensures fresh(c1) && fresh(c2) && fresh(c1.bits.buf)
    ensures c1.bits.Valid() && c2.bits.Valid()
    ensures c1.bits.Cells() == MutateCells(g1.bits.Cells(), Intn(bit, g1.bits.size))
    ensures c2.bits.buf == g2.bits.buf && c2.bits.Cells() == g2.bits.Cells()
  {
    var g1Bits := FlipCopy(g1.GetBits(), bit);
    c1 := new Genome(g1Bits);
    c2 := new Genome(g2.GetBits());
  }

  /** The first half of Mutate: a copy of the bitset with the drawn cell flipped. */
  method FlipCopy(src: Bitset, bit: nat) returns (c: Bitset)
    requires src.Valid() && 1 <= src.size
    ensures fresh(c) && fresh(c.buf) && c.Valid()
    ensures c.Cells() == MutateCells(src.Cells(), Intn(bit, src.size))
  {
    ghost var a := src.Cells();
    c := src.CreateCopy();
    var randomBit := Intn(bit, c.GetSize());
    var _ := c.Set(randomBit, 1 - c.Get(randomBit));
    assert src.Cells() == a;
  }

  /** Calls the operator an entry names. */
  method Apply(f: Operator, d: OpDraws, g1: Genome, g2: Genome) returns (c1: Genome, c2: Genome)
    requires g1.bits.Valid() && g2.bits.Valid()
    requires DrawsFit(f, d, g1.bits.size, g2.bits.size)
    ensures fresh(c1) && fresh(c2)
    ensures c1.bits.Valid() && c2.bits.Valid()
    ensures (c1.bits.Cells(), c2.bits.Cells()) == ApplyCells(f, d, g1.bits.Cells(), g2.bits.Cells())
  {
    match f
    case OnePoint => c1, c2 := OnePointCrossover(g1, g2, d.cut);
    case TwoPoint => c1, c2 := TwoPointCrossover(g1, g2, d.cut, d.recuts);
    case Uniform => c1, c2 := UniformCrossover(g1, g2, d.coins);
    case Mutation => c1, c2 := Mutate(g1, g2, d.bit);
  }

  /** `NewGenome(*a.GetBits()), NewGenome(*b.GetBits())`: fresh genomes over the parents' own cells. */
  method Rewrap(a: Genome, b: Genome) returns (c1: Genome, c2: Genome)
    requires a.bits.Valid() && b.bits.Valid()
    ensures fresh(c1) && fresh(c2)
    ensures c1.bits.buf == a.bits.buf && c2.bits.buf == b.bits.buf
    ensures c1.bits.Valid() && c2.bits.Valid() && c1.bits.size == a.bits.size && c2.bits.size == b.bits.size
    ensures c1.bits.Cells() == a.bits.Cells() && c2.bits.Cells() == b.bits.Cells()
  {
    c1 := new Genome(a.GetBits());
    c2 := new Genome(b.GetBits());
  }

  /** NullMater: its Go wraps the parents' own bitsets and its OnElite does nothing. */
  class NullMater {
    constructor ()
    {
    }

    /** The children are new genomes sharing the parents' cells. */
    method Go(a: Genome, b: Genome) returns (c1: Genome, c2: Genome)
      requires a.bits.Valid() && b.bits.Valid()
      ensures fresh(c1) && fresh(c2)
      ensures c1.bits.buf == a.bits.buf && c2.bits.buf == b.bits.buf
      ensures c1.bits.Valid() && c2.bits.Valid()
      ensures c1.bits.Cells() == a.bits.Cells() && c2.bits.Cells() == b.bits.Cells()
    {
      c1, c2 := Rewrap(a, b);
    }

    method OnElite(a: Genome)
    {
    }
  }

  /**
   * One pass of the loop in mater.Go, for entry k: when its draw is below its
   * probability the operator replaces the running pair (its second parent
   * being the elite for a UseElite entry); the rest of the chain then
   * yields what the chain from k would have.
   */
  method Step(config: seq<MaterFunctionProbability>, k: nat, draws: seq<EntryDraw>,
              g1: Genome, g2: Genome, elite: Genome?, ghost e: seq<Byte>, ghost want: (seq<Byte>, seq<Byte>))
    returns (c1: Genome, c2: Genome)
    requires k < |config| && |draws| == |config|
    requires g1.bits.Valid() && g2.bits.Valid()
    requires elite != null ==> elite.bits.Valid() && elite.bits.Cells() == e
    requires ChainFits(config[k..], draws[k..], g1.bits.size, g2.bits.size, |e|, elite != null)
    requires want == ChainCells(config[k..], draws[k..], g1.bits.Cells(), g2.bits.Cells(), e, elite != null)
    ensures c1.bits.Valid() && c2.bits.Valid()
    ensures (c1 == g1 && c2 == g2) || (fresh(c1) && fresh(c2))
    ensures ChainFits(config[k + 1..], draws[k + 1..], c1.bits.size, c2.bits.size, |e|, elite != null)
    ensures want == ChainCells(config[k + 1..], draws[k + 1..], c1.bits.Cells(), c2.bits.Cells(), e, elite != null)
  {
    assert config[k..][1..] == config[k + 1..] && draws[k..][1..] == draws[k + 1..];
    var entry := config[k];
    c1, c2 := g1, g2;
    if draws[k].u < entry.p {
      if entry.useElite {
        c1, c2 := Apply(entry.f, draws[k].op, g1, elite);
      } else {
        c1, c2 := Apply(entry.f, draws[k].op, g1, g2);
      }
    }
  }

  /**
   * The loop of mater.Go over the running pair: each entry in turn, by Step.
   * The results are the pair given or genomes allocated by the operators.
   */
  method RunChain(config: seq<MaterFunctionProbability>, draws: seq<EntryDraw>,
                  g1: Genome, g2: Genome, elite: Genome?, ghost e: seq<Byte>)
    returns (r1: Genome, r2: Genome)
    requires |draws| == |config|
    requires g1.bits.Valid() && g2.bits.Valid()
    requires elite != null ==> elite.bits.Valid() && elite.bits.Cells() == e
    requires ChainFits(config, draws, g1.bits.size, g2.bits.size, |e|, elite != null)
    ensures r1.bits.Valid() && r2.bits.Valid()
    ensures (r1 == g1 || fresh(r1)) && (r2 == g2 || fresh(r2))
    ensures (r1.bits.Cells(), r2.bits.Cells()) == ChainCells(config, draws, g1.bits.Cells(), g2.bits.Cells(), e, elite != null)
  {
    ghost var want := ChainCells(config, draws, g1.bits.Cells(), g2.bits.Cells(), e, elite != null);
    r1, r2 := g1, g2;
    assert config[0..] == config && draws[0..] == draws;
    var k := 0;
    while k < |config|
      invariant k <= |config|
      invariant r1.bits.Valid() && r2.bits.Valid()
      invariant (r1 == g1 || fresh(r1)) && (r2 == g2 || fresh(r2))
      invariant ChainFits(config[k..], draws[k..], r1.bits.size, r2.bits.size, |e|, elite != null)
      invariant want == ChainCells(config[k..], draws[k..], r1.bits.Cells(), r2.bits.Cells(), e, elite != null)
    {
      r1, r2 := Step(config, k, draws, r1, r2, elite, e, want);
      k := k + 1;
    }
    assert config[k..] == [] && draws[k..] == [];
  }

  /** The mater NewMater builds: a chain of entries and the last elite it was shown. */
  class Mater {
    const config: seq<MaterFunctionProbability>
    var elite: Genome?

    /** NewMater: the chain as given, no elite yet. */
    constructor (config: seq<MaterFunctionProbability>)
      ensures this.config == config && elite == null
    {
      this.config := config;
      elite := null;
    }

    /** OnElite: the elite later Go calls hand to UseElite entries. */
    method OnElite(e: Genome)
      modifies this`elite
      ensures elite == e
    {
      elite := e;
    }

    /** The stored elite's cells, empty when none is stored. */
    ghost function EliteCells(): seq<Byte>
      reads this, elite, if elite == null then {} else {elite.bits}, if elite == null then {} else {elite.bits.buf}
      requires elite != null ==> elite.bits.Valid()
    {
      if elite == null then [] else elite.bits.Cells()
    }

    /**
     * Go: runs the chain over fresh wrappers of the parents; the children's
     * cells are the chain's (ChainCells).
     */
    method Go(g1: Genome, g2: Genome, draws: seq<EntryDraw>) returns (r1: Genome, r2: Genome)
      requires g1.bits.Valid() && g2.bits.Valid()
      requires elite != null ==> elite.bits.Valid()
      requires |draws| == |config|
      requires ChainFits(config, draws, g1.bits.size, g2.bits.size, |EliteCells()|, elite != null)
      ensures fresh(r1) && fresh(r2)
      ensures r1.bits.Valid() && r2.bits.Valid()
      ensures (r1.bits.Cells(), r2.bits.Cells()) ==
              ChainCells(config, draws, g1.bits.Cells(), g2.bits.Cells(), EliteCells(), elite != null)
    {
      var newG1, newG2 := Rewrap(g1, g2);
      r1, r2 := RunChain(config, draws, newG1, newG2, elite, EliteCells());
    }
  }
}

/**
 * The genome of goga: a fitness, an origin (the raw score before a transform)
 * and a bitset held by value. Holding the Bitset struct by value copies only
 * its size and slice header, so the cells stay shared with the bitset the
 * genome was built from.
 */
module Genomes {
  import opened Bitsets

  class Genome {
    var fitness: real
    var origin: real
    const bits: Bitset     // the struct field itself; GetBits hands out its address

    /** NewGenome: fitness and origin start at 0; the bitset header is copied. */
    constructor (b: Bitset)
      ensures fitness == 0.0 && origin == 0.0
      ensures fresh(bits)
      ensures bits.size == b.size && bits.buf == b.buf && bits.off == b.off && bits.len == b.len
      ensures b.Valid() ==> bits.Valid() && bits.Cells() == b.Cells()
    {
      fitness := 0.0;
      origin := 0.0;
      bits := new Bitset.Alias(b);
    }

    function GetFitness(): real
      reads this
    {
      fitness
    }

    method SetFitness(x: real)
      modifies this`fitness
      ensures GetFitness() == x
    {
      fitness := x;
    }

    function GetOrigin(): real
      reads this
    {
      origin
    }

    method SetOrigin(x: real)
      modifies this`origin
      ensures GetOrigin() == x
    {
      origin := x;
    }

    function GetBits(): Bitset
    {
      bits
    }
  }

  /** A write through GetBits changes the genome's own cells. */
  method SetThroughGetBits(g: Genome, i: nat, v: int) returns (ok: bool)
    requires g.bits.Valid()
    modifies g.bits.buf
    ensures ok <==> i < g.bits.size
    ensures g.bits.Cells() == if ok then old(g.bits.Cells())[i := Wrap(v)] else old(g.bits.Cells())
  {
    var b := g.GetBits();
    ok := b.Set(i, v);
  }

  /** A genome built from `b` shares b's cells: a write through the genome is seen by `b`. */
  method SharedWithSource(b: Bitset, i: nat, v: int) returns (g: Genome)
    requires b.Valid() && i < b.size
    modifies b.buf
    ensures g.bits.buf == b.buf && g.bits.Valid()
    ensures b.Cells() == old(b.Cells())[i := Wrap(v)]
    ensures g.bits.Cells() == b.Cells()
  {
    g := new Genome(b);
    var _ := g.GetBits().Set(i, v);
  }
}

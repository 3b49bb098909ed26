/**
 * The bitset of goga: a fixed-length sequence of byte cells over a Go slice.
 * A Go slice is a window (offset and length) on a backing array, so a Bitset
 * holds the backing array, the window, and the separate `size` field that
 * bounds Get and Set.
 */
module Bitsets {

  /** A cell: Go's `byte`. */
  type Byte = x: int | 0 <= x < 256

  /** Go's `byte(v)`: v modulo 256, two's complement for negative v. */
  function Wrap(v: int): (b: Byte)
    ensures (v - b) % 256 == 0
    ensures 0 <= v < 256 ==> b == v
  {
    v % 256
  }

  class Bitset {
    var size: nat            // the `size` field
    var buf: array<Byte>     // backing array of the `bits` slice
    var off: nat             // where `bits` starts in buf
    var len: nat             // len(bits)

    /** The slice lies inside its array and `size` does not reach past the slice. */
    ghost predicate Valid()
      reads this
    {
      off + len <= buf.Length && size <= len
    }

    /** The cells that Get and Set reach: the first `size` cells of the slice. */
    ghost function Cells(): (s: seq<Byte>)
      reads this, buf
      requires Valid()
      ensures |s| == size
    {
      buf[off..off + size]
    }

    /** `Bitset{}`: size 0 and an empty slice. */
    constructor Empty()
      ensures Valid() && size == 0 && len == 0 && off == 0 && fresh(buf)
    {
      size := 0;
      buf := new Byte[0];
      off := 0;
      len := 0;
    }

    /** A second Bitset value with the same size and slice as `b` (Go copies the struct). */
    constructor Alias(b: Bitset)
      ensures size == b.size && buf == b.buf && off == b.off && len == b.len
      ensures b.Valid() ==> Valid() && Cells() == b.Cells()
    {
      size := b.size;
      buf := b.buf;
      off := b.off;
      len := b.len;
    }

    /** A bitset of n cells over b's array, from cell `start` of b's slice. */
    constructor View(b: Bitset, start: nat, n: nat)
      requires b.Valid() && start + n <= b.len
      ensures Valid() && size == n && buf == b.buf && off == b.off + start && len == n
    {
      size := n;
      buf := b.buf;
      off := b.off + start;
      len := n;
    }

    /** Create: `size` zero cells in a new array. */
    method Create(n: nat)
      modifies this
      ensures Valid() && size == n && len == n && off == 0 && fresh(buf) && buf.Length == n
      ensures forall k :: 0 <= k < n ==> buf[k] == 0
    {
      size := n;
      buf := new Byte[n](_ => 0);
      off := 0;
      len := n;
    }

    function GetSize(): (n: nat)
      reads this, buf
      requires Valid()
      ensures n == |Cells()|
    {
      size
    }

    /** Get: cell `i` below `size`, -1 from `size` on; a negative index panics in Go. */
    function Get(i: int): (v: int)
      reads this, buf
      requires Valid() && 0 <= i
      ensures v == -1 <==> size <= i
      ensures i < size ==> v == Cells()[i]
      ensures -1 <= v < 256
    {
      if i < size then buf[off + i] else -1
    }

    /** GetAll: every cell of the slice, as a value; Go hands out the slice itself, which shares the array. */
    function GetAll(): (s: seq<Byte>)
      reads this, buf
      requires Valid()
      ensures |s| == len && s[..size] == Cells()
    {
      buf[off..off + len]
    }

    /** setImpl: unchecked write; Go panics past the slice. */
    method SetImpl(i: nat, v: int)
      requires Valid() && i < len
      modifies buf
      ensures forall k :: 0 <= k < buf.Length ==> buf[k] == if k == off + i then Wrap(v) else old(buf[k])
    {
      buf[off + i] := Wrap(v);
    }

    /** Set: writes below `size` and reports success; from `size` on changes nothing. */
    method Set(i: int, v: int) returns (ok: bool)
      requires Valid() && 0 <= i
      modifies buf
      ensures ok <==> i < size
      ensures forall k :: 0 <= k < buf.Length ==> buf[k] == if ok && k == off + i then Wrap(v) else old(buf[k])
      ensures Cells() == if ok then old(Cells())[i := Wrap(v)] else old(Cells())
    {
      if i < size {
        SetImpl(i, v);
        ok := true;
      } else {
        ok := false;
      }
    }

    /** SetAll: every reachable cell becomes byte(v); cells outside them keep their values. */
    method SetAll(v: int)
      requires Valid()
      modifies buf
      ensures forall k :: 0 <= k < buf.Length ==>
                buf[k] == if off <= k < off + size then Wrap(v) else old(buf[k])
      ensures Cells() == seq(size, _ => Wrap(v))
    {
      var i := 0;
      while i < size
        invariant 0 <= i <= size
        invariant forall k :: 0 <= k < buf.Length ==>
                    buf[k] == if off <= k < off + i then Wrap(v) else old(buf[k])
      {
        SetImpl(i, v);
        i := i + 1;
      }
    }

    /** SetAllArr: the slice is replaced by value[start..start + count]; `size` is not updated. */
    method SetAllArr(value: array<Byte>, start: nat, count: nat)
      requires start + count <= value.Length && size <= count
      modifies this
      ensures buf == value && off == start && len == count && size == old(size)
      ensures Valid() && GetAll() == value[start..start + count]
    {
      buf := value;
      off := start;
      len := count;
    }

    /** CreateCopy: a new array holding the reachable cells. */
    method CreateCopy() returns (c: Bitset)
      requires Valid()
      ensures fresh(c) && fresh(c.buf)
      ensures c.Valid() && c.size == size && c.len == size && c.off == 0
      ensures c.Cells() == Cells()
    {
      ghost var src := Cells();
      c := new Bitset.Empty();
      c.Create(size);
      var i := 0;
      while i < size
        invariant 0 <= i <= size
        invariant c.Valid() && c.size == size && c.len == size && c.off == 0
        invariant fresh(c) && fresh(c.buf)
        invariant Cells() == src
        invariant forall k :: 0 <= k < i ==> c.buf[k] == src[k]
      {
        var _ := c.Set(i, Get(i));
        i := i + 1;
      }
      assert c.Cells() == Cells();
    }

    /**
     * Slice: a bitset of `n` cells over the same array, from cell `start` of
     * this slice. The source runs Create(n) first and then replaces its array,
     * so only the size it set survives.
     */
    method Slice(start: nat, n: nat) returns (s: Bitset)
      requires Valid() && start + n <= len
      ensures fresh(s) && s.Valid()
      ensures s.buf == buf && s.off == off + start && s.size == n && s.len == n
      ensures s.Cells() == GetAll()[start..start + n]
    {
      s := new Bitset.View(this, start, n);
      SubSlice(buf[..], off, len, start, n);
      assert s.Cells() == buf[..][off + start..off + start + n];
    }
  }

  /** A window of a window is a window of the whole. */
  lemma SubSlice(s: seq<Byte>, off: nat, len: nat, start: nat, n: nat)
    requires off + len <= |s| && start + n <= len
    ensures s[off..off + len][start..start + n] == s[off + start..off + start + n]
  {
    forall j | off + start <= j < off + start + n
      ensures s[off..off + len][start..start + n][j - off - start] == s[j]
    {
    }
  }

  /** A write to a copy leaves the original's cells as they were (the method changes nothing old). */
  method WriteToCopy(b: Bitset, i: nat, v: int) returns (c: Bitset)
    requires b.Valid() && i < b.size
    ensures c.Valid() && c.Cells() == b.Cells()[i := Wrap(v)]
  {
    c := b.CreateCopy();
    var _ := c.Set(i, v);
  }

  /** A write through a slice shows up in the parent at the shifted index. */
  method WriteThroughSlice(b: Bitset, start: nat, n: nat, j: nat, v: int) returns (s: Bitset)
    requires b.Valid() && start + n <= b.len && j < n
    modifies b.buf
    ensures s.Valid() && s.buf == b.buf
    ensures b.GetAll() == old(b.GetAll())[start + j := Wrap(v)]
    ensures s.Cells() == b.GetAll()[start..start + n]
  {
    s := b.Slice(start, n);
    var _ := s.Set(j, v);
  }
}

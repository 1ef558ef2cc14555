/**
 A partition table: an address-ordered sequence of partitions, each a contiguous
 span of memory that is either allocated or free. This module defines the
 record, the invariants every reachable table keeps, and the facts about tiling
 that the allocator's proofs rely on.
 */
module Partitions {

  /** One contiguous span `[start, start + size)` of the address space. */
  datatype Partition = Partition(start: int, size: int, isAllocated: bool)

  /** The exclusive end address of a partition. */
  function End(p: Partition): int
  {
    p.start + p.size
  }

  /** The total of the sizes of `ps`. */
  function SizeSum(ps: seq<Partition>): int
  {
    if |ps| == 0 then 0 else ps[0].size + SizeSum(ps[1..])
  }

  /** `ps` covers `[lo, hi)` exactly: each partition starts where the previous one
      ends, the first starts at `lo` and the last ends at `hi`. */
  predicate Tiles(ps: seq<Partition>, lo: int, hi: int)
    decreases |ps|
  {
    if |ps| == 0 then lo == hi else ps[0].start == lo && Tiles(ps[1..], End(ps[0]), hi)
  }

  predicate PositiveSizes(ps: seq<Partition>)
  {
    forall i :: 0 <= i < |ps| ==> ps[i].size > 0
  }

  /** No two address-adjacent partitions are both free. */
  predicate NoAdjacentFree(ps: seq<Partition>)
  {
    forall i :: 0 <= i < |ps| - 1 ==> ps[i].isAllocated || ps[i + 1].isAllocated
  }

  /** The invariant of a table over a memory of `total` units. */
  predicate Valid(ps: seq<Partition>, total: int)
  {
    Tiles(ps, 0, total) && PositiveSizes(ps) && NoAdjacentFree(ps)
  }

  /** The allocated partitions of `ps`, in address order. */
  function Allocs(ps: seq<Partition>): (r: seq<Partition>)
    ensures |r| <= |ps|
    ensures forall i :: 0 <= i < |r| ==> r[i].isAllocated
  {
    if |ps| == 0 then []
    else if ps[0].isAllocated then [ps[0]] + Allocs(ps[1..])
    else Allocs(ps[1..])
  }

  lemma {:induction false} AllocsConcat(xs: seq<Partition>, ys: seq<Partition>)
    ensures Allocs(xs + ys) == Allocs(xs) + Allocs(ys)
    decreases |xs|
  {
    if |xs| == 0 {
      assert xs + ys == ys;
    } else {
      assert (xs + ys)[1..] == xs[1..] + ys;
      AllocsConcat(xs[1..], ys);
    }
  }

  /** A tiling of `[lo, hi)` has sizes adding up to the length of the range. */
  lemma {:induction false} TilesSum(ps: seq<Partition>, lo: int, hi: int)
    requires Tiles(ps, lo, hi)
    ensures SizeSum(ps) == hi - lo
    decreases |ps|
  {
    if |ps| > 0 {
      TilesSum(ps[1..], End(ps[0]), hi);
    }
  }

  lemma {:induction false} TilesConcat(xs: seq<Partition>, ys: seq<Partition>, lo: int, mid: int, hi: int)
    requires Tiles(xs, lo, mid) && Tiles(ys, mid, hi)
    ensures Tiles(xs + ys, lo, hi)
    decreases |xs|
  {
    if |xs| == 0 {
      assert xs + ys == ys;
    } else {
      assert (xs + ys)[1..] == xs[1..] + ys;
      TilesConcat(xs[1..], ys, End(xs[0]), mid, hi);
    }
  }

  /** Cutting a tiling after `n` partitions leaves two tilings that meet at
      `lo + SizeSum(ps[..n])`. */
  lemma {:induction false} TilesSplit(ps: seq<Partition>, lo: int, hi: int, n: nat)
    requires Tiles(ps, lo, hi) && n <= |ps|
    ensures Tiles(ps[..n], lo, lo + SizeSum(ps[..n]))
    ensures Tiles(ps[n..], lo + SizeSum(ps[..n]), hi)
    decreases n
  {
    if n == 0 {
      assert ps[n..] == ps;
    } else {
      TilesSplit(ps[1..], End(ps[0]), hi, n - 1);
      assert ps[..n][1..] == ps[1..][..n - 1];
      assert ps[1..][n - 1..] == ps[n..];
    }
  }

  /** Tiling depends only on starts and sizes, not on the allocation flags. */
  lemma {:induction false} TilesSameExtents(ps: seq<Partition>, qs: seq<Partition>, lo: int, hi: int)
    requires Tiles(ps, lo, hi)
    requires |qs| == |ps|
    requires forall i :: 0 <= i < |ps| ==> qs[i].start == ps[i].start && qs[i].size == ps[i].size
    ensures Tiles(qs, lo, hi)
    decreases |ps|
  {
    if |ps| > 0 {
      TilesSameExtents(ps[1..], qs[1..], End(ps[0]), hi);
    }
  }

  /** The recursive tiling predicate agrees with its pointwise reading: the first
      partition starts at `lo`, each one ends where the next starts, and the last
      ends at `hi`. */
  lemma {:induction false} TilesIff(ps: seq<Partition>, lo: int, hi: int)
    ensures Tiles(ps, lo, hi) <==>
      if |ps| == 0 then lo == hi
      else && ps[0].start == lo
           && (forall i :: 0 <= i < |ps| - 1 ==> End(ps[i]) == ps[i + 1].start)
           && End(ps[|ps| - 1]) == hi
    decreases |ps|
  {
    if |ps| > 0 {
      TilesIff(ps[1..], End(ps[0]), hi);
      if |ps| > 1 {
        assert forall i :: 0 <= i < |ps| - 1 ==> ps[i + 1] == ps[1..][i];
      }
    }
  }

  /** With positive sizes, a tiling is strictly ordered by address and its
      partitions do not overlap. */
  lemma {:induction false} TilesOrdered(ps: seq<Partition>, lo: int, hi: int)
    requires Tiles(ps, lo, hi) && PositiveSizes(ps)
    ensures forall i, j :: 0 <= i < j < |ps| ==> End(ps[i]) <= ps[j].start
    ensures forall i :: 0 <= i < |ps| ==> lo <= ps[i].start && End(ps[i]) <= hi
    decreases |ps|
  {
    if |ps| > 0 {
      var rest := ps[1..];
      TilesOrdered(rest, End(ps[0]), hi);
      assert forall i :: 1 <= i < |ps| ==> ps[i] == rest[i - 1];
    }
  }

}

/**
 The worst-fit allocator over a partition table. Allocation places a request in
 the largest free partition that can hold it, splitting off a free remainder;
 freeing marks an allocated partition free and then folds every run of adjacent
 free partitions into its lowest member. The table is an immutable sequence and
 each operation returns the new table.
 */
module WorstFit {
  import opened Options
  import opened Partitions

  /** A new table: one free partition covering the whole memory. */
  function Init(total: int): (r: seq<Partition>)
    requires total > 0
    ensures Valid(r, total)
    ensures |r| == 1 && !r[0].isAllocated && r[0].start == 0 && r[0].size == total
  {
    var r := [Partition(0, total, false)];
    assert Tiles(r[1..], End(r[0]), total) by {
      assert r[1..] == [];
    }
    r
  }

  // ---------------------------------------------------------------------------
  // Selection

  /** `p` can hold a request of `req` units. */
  predicate Eligible(p: Partition, req: int)
  {
    !p.isAllocated && p.size >= req
  }

  /** Among the first `n` partitions, `k` is the worst fit: it is eligible, no
      eligible partition is larger, and every eligible partition before it is
      strictly smaller (ties go to the lowest index). */
  predicate IsWorstFitAmong(ps: seq<Partition>, req: int, k: int, n: int)
  {
    && 0 <= k < n <= |ps|
    && Eligible(ps[k], req)
    && (forall j :: 0 <= j < n && Eligible(ps[j], req) ==> ps[j].size <= ps[k].size)
    && (forall j :: 0 <= j < k && Eligible(ps[j], req) ==> ps[j].size < ps[k].size)
  }

  predicate IsWorstFit(ps: seq<Partition>, req: int, k: int)
  {
    IsWorstFitAmong(ps, req, k, |ps|)
  }

  predicate NothingFits(ps: seq<Partition>, req: int)
  {
    forall j :: 0 <= j < |ps| ==> !Eligible(ps[j], req)
  }

  /** The selection loop from index `i` on, carrying the index and size of the
      best candidate so far; `-1` in both means none has been seen. */
  function Scan(ps: seq<Partition>, req: int, i: nat, best: int, maxSize: int): (r: Option<nat>)
    requires req >= 0 && i <= |ps|
    requires best == -1 ==> maxSize == -1 && forall j :: 0 <= j < i ==> !Eligible(ps[j], req)
    requires best != -1 ==> IsWorstFitAmong(ps, req, best, i) && maxSize == ps[best].size
    ensures r.None? <==> NothingFits(ps, req)
    ensures r.Some? ==> IsWorstFit(ps, req, r.value)
    decreases |ps| - i
  {
    if i == |ps| then
      if best == -1 then None else Some(best as nat)
    else
      var p := ps[i];
      if !p.isAllocated && p.size >= req && p.size > maxSize then
        Scan(ps, req, i + 1, i, p.size)
      else
        Scan(ps, req, i + 1, best, maxSize)
  }

  /** The index of the worst-fit partition for `req`, if any partition can hold it. */
  function Select(ps: seq<Partition>, req: int): (r: Option<nat>)
    requires req >= 0
    ensures r.None? <==> NothingFits(ps, req)
    ensures r.Some? ==> IsWorstFit(ps, req, r.value)
  {
    Scan(ps, req, 0, -1, -1)
  }

  /** The worst fit is unique: the conditions pin down one index. */
  lemma {:induction false} WorstFitUnique(ps: seq<Partition>, req: int, k: int, k': int)
    requires IsWorstFit(ps, req, k) && IsWorstFit(ps, req, k')
    ensures k == k'
  {
  }

  /** On a valid table, index order is address order, so of several equally
      large eligible partitions the worst fit is the one at the lowest address. */
  lemma {:induction false} WorstFitLowestAddress(ps: seq<Partition>, total: int, req: int, k: int, j: int)
    requires Valid(ps, total) && IsWorstFit(ps, req, k)
    requires 0 <= j < |ps| && Eligible(ps[j], req) && ps[j].size == ps[k].size
    ensures ps[k].start <= ps[j].start
  {
    TilesOrdered(ps, 0, total);
    if j != k {
      assert ps[k].start < End(ps[k]) <= ps[j].start;
    }
  }

  // ---------------------------------------------------------------------------
  // Allocation

  /** Gives `req` units of partition `k` to a process: when the partition is
      larger, a free remainder is inserted right after it; either way the
      partition takes size `req` and becomes allocated. */
  function Place(ps: seq<Partition>, k: nat, req: int): (r: seq<Partition>)
    requires k < |ps|
    ensures |r| == if ps[k].size > req then |ps| + 1 else |ps|
    ensures forall j :: 0 <= j < k ==> r[j] == ps[j]
    ensures r[k] == Partition(ps[k].start, req, true)
    ensures ps[k].size > req ==>
      && r[k + 1] == Partition(ps[k].start + req, ps[k].size - req, false)
      && forall j :: k < j < |ps| ==> r[j + 1] == ps[j]
    ensures ps[k].size <= req ==> forall j :: k < j < |ps| ==> r[j] == ps[j]
  {
    var sel := ps[k];
    if sel.size > req then
      var r := ps[..k] + [Partition(sel.start, req, true), Partition(sel.start + req, sel.size - req, false)] + ps[k + 1..];
      assert forall j :: 0 <= j < k ==> r[j] == ps[..k][j];
      assert forall j :: k + 1 < j < |r| ==> r[j] == ps[k + 1..][j - k - 2];
      r
    else
      ps[k := Partition(sel.start, req, true)]
  }

  /** Worst-fit allocation of `req` units. The table changes exactly when some
      free partition can hold the request. */
  function Allocate(ps: seq<Partition>, req: int): (r: seq<Partition>)
    requires req > 0
    ensures r == ps <==> NothingFits(ps, req)
    ensures |r| == |ps| || |r| == |ps| + 1
  {
    match Select(ps, req)
    case None => ps
    case Some(k) =>
      var r := Place(ps, k, req);
      assert r[k] != ps[k];
      r
  }

  /** When the selected partition is larger than the request, it is split: the
      allocated part keeps its start, the free remainder follows it, and every
      other partition is unchanged. */
  lemma {:induction false} AllocateSplit(ps: seq<Partition>, req: int, k: nat)
    requires req > 0 && IsWorstFit(ps, req, k) && ps[k].size > req
    ensures var r := Allocate(ps, req);
      && |r| == |ps| + 1
      && r[k] == Partition(ps[k].start, req, true)
      && r[k + 1] == Partition(ps[k].start + req, ps[k].size - req, false)
      && (forall j :: 0 <= j < k ==> r[j] == ps[j])
      && (forall j :: k < j < |ps| ==> r[j + 1] == ps[j])
  {
    WorstFitUnique(ps, req, k, Select(ps, req).value);
    assert Allocate(ps, req) == Place(ps, k, req);
  }

  /** When the selected partition has exactly the requested size, no partition
      is created: only its flag flips to allocated. */
  lemma {:induction false} AllocateExact(ps: seq<Partition>, req: int, k: nat)
    requires req > 0 && IsWorstFit(ps, req, k) && ps[k].size == req
    ensures var r := Allocate(ps, req);
      && |r| == |ps|
      && r[k] == ps[k].(isAllocated := true)
      && (forall j :: 0 <= j < |ps| && j != k ==> r[j] == ps[j])
  {
    WorstFitUnique(ps, req, k, Select(ps, req).value);
    assert Allocate(ps, req) == Place(ps, k, req);
  }

  /** The allocated part and the free remainder of a split tile the split
      partition's range. */
  lemma {:induction false} SplitPieceTiles(sel: Partition, req: int)
    ensures Tiles([Partition(sel.start, req, true), Partition(sel.start + req, sel.size - req, false)], sel.start, End(sel))
  {
    var a := Partition(sel.start, req, true);
    var f := Partition(sel.start + req, sel.size - req, false);
    assert [a, f][1..] == [f];
    assert [f][1..] == [];
  }

  /** The partitions after `k` tile the range from the end of partition `k`. */
  lemma {:induction false} TilesAfter(ps: seq<Partition>, total: int, k: nat)
    requires Tiles(ps, 0, total) && k < |ps|
    ensures ps[k].start == SizeSum(ps[..k])
    ensures Tiles(ps[k + 1..], End(ps[k]), total)
  {
    TilesSplit(ps, 0, total, k);
    assert ps[k..][1..] == ps[k + 1..];
  }

  /** Splitting partition `k` of a tiling keeps the tiling. */
  lemma {:induction false} PlaceSplitTiles(ps: seq<Partition>, total: int, k: nat, req: int)
    requires Tiles(ps, 0, total) && k < |ps| && ps[k].size > req
    ensures Tiles(Place(ps, k, req), 0, total)
  {
    var sel := ps[k];
    var pieces := [Partition(sel.start, req, true), Partition(sel.start + req, sel.size - req, false)];
    TilesSplit(ps, 0, total, k);
    TilesAfter(ps, total, k);
    SplitPieceTiles(sel, req);
    TilesConcat(pieces, ps[k + 1..], sel.start, End(sel), total);
    TilesConcat(ps[..k], pieces + ps[k + 1..], 0, sel.start, total);
    assert Place(ps, k, req) == ps[..k] + (pieces + ps[k + 1..]);
  }

  /** Splitting an eligible partition of a valid table keeps the table valid. */
  lemma {:induction false} PlaceSplitValid(ps: seq<Partition>, total: int, k: nat, req: int)
    requires Valid(ps, total) && req > 0 && k < |ps| && Eligible(ps[k], req) && ps[k].size > req
    ensures Valid(Place(ps, k, req), total)
  {
    PlaceSplitTiles(ps, total, k, req);
    var r := Place(ps, k, req);
    assert forall j :: k + 2 <= j < |r| ==> r[j] == ps[j - 1];
    if k + 1 < |ps| {
      assert ps[k + 1].isAllocated;
    }
  }

  /** Placing a positive request in an eligible partition keeps the table valid. */
  lemma {:induction false} PlaceValid(ps: seq<Partition>, total: int, k: nat, req: int)
    requires Valid(ps, total) && req > 0 && k < |ps| && Eligible(ps[k], req)
    ensures Valid(Place(ps, k, req), total)
  {
    if ps[k].size > req {
      PlaceSplitValid(ps, total, k, req);
    } else {
      var r := Place(ps, k, req);
      TilesSameExtents(ps, r, 0, total);
      assert forall j :: 0 <= j < |ps| && j != k ==> r[j] == ps[j];
    }
  }

  /** Allocation of a positive request keeps the table valid, and therefore keeps
      the sizes adding up to the total memory. */
  lemma {:induction false} AllocateValid(ps: seq<Partition>, total: int, req: int)
    requires Valid(ps, total) && req > 0
    ensures Valid(Allocate(ps, req), total)
    ensures SizeSum(Allocate(ps, req)) == total
  {
    var sel := Select(ps, req);
    if sel.Some? {
      PlaceValid(ps, total, sel.value, req);
    }
    TilesSum(Allocate(ps, req), 0, total);
  }

  // ---------------------------------------------------------------------------
  // Coalescing

  /** The merge pass from index `i` on. When partitions `i` and `i + 1` are both
      free, the lower one absorbs the upper one and the pass looks at index `i`
      again; otherwise it moves on. */
  function MergePass(ps: seq<Partition>, i: nat): (r: seq<Partition>)
    ensures |r| <= |ps|
    decreases |ps| - i
  {
    if i + 1 >= |ps| then ps
    else if !ps[i].isAllocated && !ps[i + 1].isAllocated then
      var merged := ps[i].(size := ps[i].size + ps[i + 1].size);
      MergePass(ps[..i] + [merged] + ps[i + 2..], i)
    else
      MergePass(ps, i + 1)
  }

  /** The number of free partitions at the head of `ps`. */
  function RunLen(ps: seq<Partition>): (n: nat)
    ensures n <= |ps|
    ensures n < |ps| ==> ps[n].isAllocated
  {
    if |ps| == 0 || ps[0].isAllocated then 0 else 1 + RunLen(ps[1..])
  }

  /** Every partition of the leading run is free. */
  lemma {:induction false} RunLenFree(ps: seq<Partition>)
    ensures forall j :: 0 <= j < RunLen(ps) ==> !ps[j].isAllocated
    decreases |ps|
  {
    if |ps| > 0 && !ps[0].isAllocated {
      RunLenFree(ps[1..]);
      assert forall j :: 1 <= j < |ps| ==> ps[j] == ps[1..][j - 1];
    }
  }

  /** Reference definition of coalescing: each maximal run of free partitions
      becomes one free partition that starts where the run starts and whose
      size is the sum of the run's sizes; allocated partitions stay as they are. */
  function Coalesce(ps: seq<Partition>): seq<Partition>
    decreases |ps|
  {
    if |ps| == 0 then []
    else if ps[0].isAllocated then [ps[0]] + Coalesce(ps[1..])
    else
      var n := RunLen(ps);
      [Partition(ps[0].start, SizeSum(ps[..n]), false)] + Coalesce(ps[n..])
  }

  /** Prepending a free partition lengthens the leading free run by one. */
  lemma {:induction false} RunLenFreeCons(p: Partition, rest: seq<Partition>)
    requires !p.isAllocated
    ensures RunLen([p] + rest) == 1 + RunLen(rest)
  {
    assert ([p] + rest)[1..] == rest;
  }

  /** Coalescing a table whose head is free: its leading run becomes one partition. */
  lemma {:induction false} CoalesceFreeHead(ps: seq<Partition>)
    requires |ps| > 0 && !ps[0].isAllocated
    ensures Coalesce(ps) == [Partition(ps[0].start, SizeSum(ps[..RunLen(ps)]), false)] + Coalesce(ps[RunLen(ps)..])
  {
  }

  lemma {:induction false} ConsSlices(p: Partition, rest: seq<Partition>, k: nat)
    requires k <= |rest|
    ensures ([p] + rest)[..k + 1] == [p] + rest[..k]
    ensures ([p] + rest)[k + 1..] == rest[k..]
  {
  }

  lemma {:induction false} SizeSumCons(p: Partition, rest: seq<Partition>)
    ensures SizeSum([p] + rest) == p.size + SizeSum(rest)
  {
    assert ([p] + rest)[1..] == rest;
  }

  /** Coalescing a table that starts with a free partition `p`. */
  lemma {:induction false} CoalesceFreeCons(p: Partition, rest: seq<Partition>)
    requires !p.isAllocated
    ensures var n := RunLen(rest);
      Coalesce([p] + rest) == [Partition(p.start, p.size + SizeSum(rest[..n]), false)] + Coalesce(rest[n..])
  {
    var n := RunLen(rest);
    RunLenFreeCons(p, rest);
    ConsSlices(p, rest, n);
    SizeSumCons(p, rest[..n]);
    CoalesceFreeHead([p] + rest);
  }

  /** Merging the first two free partitions before coalescing changes nothing. */
  lemma {:induction false} CoalesceMergeHead(a: Partition, b: Partition, rest: seq<Partition>)
    requires !a.isAllocated && !b.isAllocated
    ensures Coalesce([a, b] + rest) == Coalesce([a.(size := a.size + b.size)] + rest)
  {
    var m := a.(size := a.size + b.size);
    var n := RunLen(rest);
    CoalesceFreeCons(m, rest);
    CoalesceFreeCons(b, rest);
    var brest := [b] + rest;
    RunLenFreeCons(b, rest);
    assert brest[..n + 1] == [b] + rest[..n];
    assert brest[n + 1..] == rest[n..];
    assert SizeSum(brest[..n + 1]) == b.size + SizeSum(rest[..n]) by {
      assert ([b] + rest[..n])[1..] == rest[..n];
    }
    CoalesceFreeCons(a, brest);
    assert [a, b] + rest == [a] + brest;
  }

  /** A head that is allocated, or free but not followed by a free partition,
      survives coalescing unchanged. */
  lemma {:induction false} CoalesceKeepsHead(ps: seq<Partition>)
    requires |ps| >= 1
    requires ps[0].isAllocated || |ps| == 1 || ps[1].isAllocated
    ensures Coalesce(ps) == [ps[0]] + Coalesce(ps[1..])
  {
    if !ps[0].isAllocated {
      assert RunLen(ps) == 1;
      assert ps[..1] == [ps[0]];
      assert SizeSum([ps[0]]) == ps[0].size;
    }
  }

  /** The merge pass computes the reference coalescing of the partitions from
      index `i` on and leaves those before `i` alone. */
  lemma {:induction false} MergePassIsCoalesce(ps: seq<Partition>, i: nat)
    requires i <= |ps|
    ensures MergePass(ps, i) == ps[..i] + Coalesce(ps[i..])
    decreases |ps| - i
  {
    if i + 1 >= |ps| {
      if i < |ps| {
        CoalesceKeepsHead(ps[i..]);
        assert ps[i..][1..] == [];
      }
      assert ps[..i] + ps[i..] == ps;
    } else if !ps[i].isAllocated && !ps[i + 1].isAllocated {
      MergeStep(ps, i);
    } else {
      MergePassIsCoalesce(ps, i + 1);
      CoalesceKeepsHead(ps[i..]);
      assert ps[i..][1..] == ps[i + 1..];
      assert ps[..i + 1] == ps[..i] + [ps[i]];
    }
  }

  /** The merging step of `MergePassIsCoalesce`. */
  lemma {:induction false} MergeStep(ps: seq<Partition>, i: nat)
    requires i + 1 < |ps| && !ps[i].isAllocated && !ps[i + 1].isAllocated
    ensures MergePass(ps, i) == ps[..i] + Coalesce(ps[i..])
    decreases |ps| - i, 0
  {
    var merged := ps[i].(size := ps[i].size + ps[i + 1].size);
    var qs := ps[..i] + [merged] + ps[i + 2..];
    MergePassMerges(ps, i);
    MergePassIsCoalesce(qs, i);
    SpliceSlices(ps, i, merged);
    CoalesceMergeHead(ps[i], ps[i + 1], ps[i + 2..]);
  }

  /** One step of the merge pass when partitions `i` and `i + 1` are both free. */
  lemma {:induction false} MergePassMerges(ps: seq<Partition>, i: nat)
    requires i + 1 < |ps| && !ps[i].isAllocated && !ps[i + 1].isAllocated
    ensures MergePass(ps, i)
         == MergePass(ps[..i] + [ps[i].(size := ps[i].size + ps[i + 1].size)] + ps[i + 2..], i)
  {
  }

  /** Slicing facts about replacing partitions `i` and `i + 1` with `x`. */
  lemma {:induction false} SpliceSlices(ps: seq<Partition>, i: nat, x: Partition)
    requires i + 1 < |ps|
    ensures (ps[..i] + [x] + ps[i + 2..])[..i] == ps[..i]
    ensures (ps[..i] + [x] + ps[i + 2..])[i..] == [x] + ps[i + 2..]
    ensures ps[i..] == [ps[i], ps[i + 1]] + ps[i + 2..]
  {
  }

  /** After coalescing, no two adjacent partitions are free. */
  lemma {:induction false} CoalesceNoAdjacentFree(ps: seq<Partition>)
    ensures NoAdjacentFree(Coalesce(ps))
    decreases |ps|
  {
    if |ps| > 0 {
      var r := Coalesce(ps);
      var tail := if ps[0].isAllocated then ps[1..] else ps[RunLen(ps)..];
      CoalesceNoAdjacentFree(tail);
      assert r == [r[0]] + Coalesce(tail);
      assert forall j :: 1 <= j < |r| ==> r[j] == Coalesce(tail)[j - 1];
    }
  }

  /** A table that already has no adjacent free pair is left as it is. */
  lemma {:induction false} CoalesceNoOp(ps: seq<Partition>)
    requires NoAdjacentFree(ps)
    ensures Coalesce(ps) == ps
    decreases |ps|
  {
    if |ps| > 0 {
      CoalesceKeepsHead(ps);
      CoalesceNoOp(ps[1..]);
      assert ps == [ps[0]] + ps[1..];
    }
  }

  /** Coalescing twice is the same as coalescing once. */
  lemma {:induction false} CoalesceIdempotent(ps: seq<Partition>)
    ensures Coalesce(Coalesce(ps)) == Coalesce(ps)
  {
    CoalesceNoAdjacentFree(ps);
    CoalesceNoOp(Coalesce(ps));
  }

  lemma {:induction false} SizeSumPositive(ps: seq<Partition>)
    requires PositiveSizes(ps) && |ps| > 0
    ensures SizeSum(ps) > 0
    decreases |ps|
  {
    if |ps| > 1 {
      SizeSumPositive(ps[1..]);
    }
  }

  /** Coalescing a tiling of `[lo, hi)` with positive sizes yields a tiling of
      the same range with positive sizes. */
  lemma {:induction false} CoalesceTiles(ps: seq<Partition>, lo: int, hi: int)
    requires Tiles(ps, lo, hi) && PositiveSizes(ps)
    ensures Tiles(Coalesce(ps), lo, hi) && PositiveSizes(Coalesce(ps))
    decreases |ps|
  {
    if |ps| > 0 {
      var r := Coalesce(ps);
      if ps[0].isAllocated {
        CoalesceTiles(ps[1..], End(ps[0]), hi);
        assert r[1..] == Coalesce(ps[1..]);
      } else {
        var n := RunLen(ps);
        TilesSplit(ps, lo, hi, n);
        SizeSumPositive(ps[..n]);
        CoalesceTiles(ps[n..], lo + SizeSum(ps[..n]), hi);
        assert r[1..] == Coalesce(ps[n..]);
      }
      assert forall j :: 1 <= j < |r| ==> r[j] == r[1..][j - 1];
    }
  }

  /** Coalescing keeps the allocated partitions, in order. */
  lemma {:induction false} CoalesceAllocs(ps: seq<Partition>)
    ensures Allocs(Coalesce(ps)) == Allocs(ps)
    decreases |ps|
  {
    if |ps| > 0 {
      var r := Coalesce(ps);
      if ps[0].isAllocated {
        CoalesceAllocs(ps[1..]);
        assert r[1..] == Coalesce(ps[1..]);
      } else {
        var n := RunLen(ps);
        CoalesceAllocs(ps[n..]);
        RunLenFree(ps);
        AllocsSkipFree(ps, n);
        assert r[1..] == Coalesce(ps[n..]);
      }
    }
  }

  lemma {:induction false} AllocsSkipFree(ps: seq<Partition>, n: nat)
    requires n <= |ps| && forall j :: 0 <= j < n ==> !ps[j].isAllocated
    ensures Allocs(ps[n..]) == Allocs(ps)
    decreases n
  {
    if n > 0 {
      AllocsSkipFree(ps, n - 1);
      assert ps[n - 1..][1..] == ps[n..];
    }
  }

  /** The complete merge pass. Afterwards no two adjacent partitions are free,
      whatever the table looked like before. */
  function MergeFreePartitions(ps: seq<Partition>): (r: seq<Partition>)
    ensures NoAdjacentFree(r)
    ensures Allocs(r) == Allocs(ps)
  {
    MergePassIsCoalesce(ps, 0);
    assert ps[0..] == ps;
    CoalesceNoAdjacentFree(ps);
    CoalesceAllocs(ps);
    assert ps[..0] + Coalesce(ps) == Coalesce(ps);
    MergePass(ps, 0)
  }

  // ---------------------------------------------------------------------------
  // Freeing

  /** `p` is an allocated partition starting at `addr`. */
  predicate AllocatedAt(p: Partition, addr: int)
  {
    p.isAllocated && p.start == addr
  }

  /** The first index from `i` on holding an allocated partition that starts at `addr`. */
  function FindAllocated(ps: seq<Partition>, addr: int, i: nat): (r: Option<nat>)
    requires i <= |ps|
    ensures r.None? <==> forall j :: i <= j < |ps| ==> !AllocatedAt(ps[j], addr)
    ensures r.Some? ==>
      && i <= r.value < |ps|
      && AllocatedAt(ps[r.value], addr)
      && forall j :: i <= j < r.value ==> !AllocatedAt(ps[j], addr)
    decreases |ps| - i
  {
    if i == |ps| then None
    else if ps[i].start == addr && ps[i].isAllocated then Some(i)
    else FindAllocated(ps, addr, i + 1)
  }

  /** Marks partition `i` free. Nothing else changes: the partition keeps its
      start and size, and every other partition stays where it was. */
  function MarkFree(ps: seq<Partition>, i: nat): (r: seq<Partition>)
    requires i < |ps|
    ensures |r| == |ps| && r[i] == ps[i].(isAllocated := false)
    ensures forall j :: 0 <= j < |ps| && j != i ==> r[j] == ps[j]
    ensures Allocs(r) == Allocs(ps[..i]) + Allocs(ps[i + 1..])
    ensures ps[i].isAllocated ==> Allocs(ps) == Allocs(ps[..i]) + [ps[i]] + Allocs(ps[i + 1..])
  {
    var r := ps[i := ps[i].(isAllocated := false)];
    assert r == ps[..i] + [r[i]] + ps[i + 1..];
    assert ps == ps[..i] + [ps[i]] + ps[i + 1..];
    AllocsConcat(ps[..i] + [r[i]], ps[i + 1..]);
    AllocsConcat(ps[..i], [r[i]]);
    AllocsConcat(ps[..i] + [ps[i]], ps[i + 1..]);
    AllocsConcat(ps[..i], [ps[i]]);
    assert [r[i]][1..] == [];
    assert [ps[i]][1..] == [];
    r
  }

  /** Frees the allocated partition starting at `addr`, if there is one, and then
      coalesces. The table changes exactly when such a partition exists, and then
      it loses exactly one allocated partition and has no adjacent free pair. */
  function Free(ps: seq<Partition>, addr: int): (r: seq<Partition>)
    ensures r == ps <==> forall j :: 0 <= j < |ps| ==> !AllocatedAt(ps[j], addr)
    ensures r != ps ==> NoAdjacentFree(r) && |Allocs(r)| + 1 == |Allocs(ps)|
  {
    match FindAllocated(ps, addr, 0)
    case None => ps
    case Some(i) =>
      var r := MergeFreePartitions(MarkFree(ps, i));
      assert |Allocs(r)| + 1 == |Allocs(ps)|;
      r
  }

  /** When `i` holds the first allocated partition starting at `addr`, freeing
      merges the table with partition `i` marked free. */
  lemma {:induction false} FreeFound(ps: seq<Partition>, addr: int, i: nat)
    requires i < |ps| && AllocatedAt(ps[i], addr)
    requires forall j :: 0 <= j < i ==> !AllocatedAt(ps[j], addr)
    ensures Free(ps, addr) == MergeFreePartitions(MarkFree(ps, i))
  {
    var found := FindAllocated(ps, addr, 0);
    assert found.Some?;
    assert !(found.value < i) && !(i < found.value);
  }

  /** Freeing is the reference coalescing of the table with the partition marked
      free: every run of free partitions around it collapses into one partition
      at the run's lowest start, sized the sum of the run. */
  lemma {:induction false} FreeCoalesces(ps: seq<Partition>, addr: int, i: nat)
    requires i < |ps| && AllocatedAt(ps[i], addr)
    requires forall j :: 0 <= j < i ==> !AllocatedAt(ps[j], addr)
    ensures Free(ps, addr) == Coalesce(ps[i := ps[i].(isAllocated := false)])
  {
    FreeFound(ps, addr, i);
    var q := MarkFree(ps, i);
    MergePassIsCoalesce(q, 0);
    assert q[0..] == q;
  }

  /** Freeing leaves every other allocated partition as it was, in order. */
  lemma {:induction false} FreeKeepsAllocated(ps: seq<Partition>, addr: int, i: nat)
    requires i < |ps| && AllocatedAt(ps[i], addr)
    requires forall j :: 0 <= j < i ==> !AllocatedAt(ps[j], addr)
    ensures Allocs(Free(ps, addr)) == Allocs(ps[..i]) + Allocs(ps[i + 1..])
  {
    FreeFound(ps, addr, i);
  }

  /** Freeing keeps the table valid, and therefore keeps the sizes adding up to
      the total memory. */
  lemma {:induction false} FreeValid(ps: seq<Partition>, total: int, addr: int)
    requires Valid(ps, total)
    ensures Valid(Free(ps, addr), total)
    ensures SizeSum(Free(ps, addr)) == total
  {
    var found := FindAllocated(ps, addr, 0);
    if found.Some? {
      var i := found.value;
      var q := MarkFree(ps, i);
      TilesSameExtents(ps, q, 0, total);
      FreeCoalesces(ps, addr, i);
      CoalesceTiles(q, 0, total);
    }
    TilesSum(Free(ps, addr), 0, total);
  }

  // ---------------------------------------------------------------------------
  // Reachable tables

  /** A call on the allocator: an allocation of some size, or a free at some address. */
  datatype Request = AllocRequest(size: int) | FreeRequest(addr: int)

  predicate WellFormed(rq: Request)
  {
    rq.AllocRequest? ==> rq.size > 0
  }

  /** The table after one call. */
  function Step(ps: seq<Partition>, rq: Request): seq<Partition>
    requires WellFormed(rq)
  {
    if rq.AllocRequest? then Allocate(ps, rq.size) else Free(ps, rq.addr)
  }

  /** The table after performing `rqs` in order, starting from `ps`. */
  function Replay(ps: seq<Partition>, rqs: seq<Request>): seq<Partition>
    requires forall j :: 0 <= j < |rqs| ==> WellFormed(rqs[j])
    decreases |rqs|
  {
    if |rqs| == 0 then ps else Replay(Step(ps, rqs[0]), rqs[1..])
  }

  /** Every table reachable from a valid one by any sequence of allocations of
      positive size and frees is valid, so its sizes add up to the total memory. */
  lemma {:induction false} ReplayValid(ps: seq<Partition>, total: int, rqs: seq<Request>)
    requires Valid(ps, total)
    requires forall j :: 0 <= j < |rqs| ==> WellFormed(rqs[j])
    ensures Valid(Replay(ps, rqs), total)
    ensures SizeSum(Replay(ps, rqs)) == total
    decreases |rqs|
  {
    if |rqs| == 0 {
      TilesSum(ps, 0, total);
    } else {
      var rq := rqs[0];
      assert WellFormed(rq);
      if rq.AllocRequest? {
        AllocateValid(ps, total, rq.size);
      } else {
        FreeValid(ps, total, rq.addr);
      }
      ReplayValid(Step(ps, rq), total, rqs[1..]);
    }
  }

  /** The invariant holds in every state of the allocator: from construction,
      through any sequence of positive allocations and frees. */
  lemma {:induction false} ReachableValid(total: int, rqs: seq<Request>)
    requires total > 0
    requires forall j :: 0 <= j < |rqs| ==> WellFormed(rqs[j])
    ensures Valid(Replay(Init(total), rqs), total)
    ensures SizeSum(Replay(Init(total), rqs)) == total
  {
    ReplayValid(Init(total), total, rqs);
  }

}

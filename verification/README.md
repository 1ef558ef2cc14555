# Worst-fit partition allocator

A Dafny model of a teaching allocator for contiguous memory under the
worst-fit placement policy. The memory of `total` units is described by an
address-ordered table of partitions, each with a start, a size and an
allocated flag. Allocation places a request in the largest free partition that
can hold it, splitting off a free remainder when the fit is not exact. Freeing
marks the allocated partition at a given start address free and then makes one
pass over the table that folds every run of adjacent free partitions into its
lowest member.

The table is an immutable `seq<Partition>` and every operation is a pure
function that returns the new table:

- `options.dfy`, module `Options`: the `Option` datatype returned by searches.
- `partitions.dfy`, module `Partitions`: the `Partition` record and the table
  invariants. `Tiles(ps, lo, hi)` says the partitions cover `[lo, hi)` with no
  gap and no overlap. `PositiveSizes` says every size is positive.
  `NoAdjacentFree` says no two neighbours are both free. `Valid(ps, total)`
  bundles the three. Lemmas about tiling: sizes add up to the range, a tiling
  splits and concatenates, the recursive definition agrees with the pointwise
  one, and starts are strictly increasing.
- `worstfit.dfy`, module `WorstFit`: the constructor (`Init`), selection
  (`Scan`, `Select`), allocation (`Place`, `Allocate`), the merge pass
  (`MergePass`, `MergeFreePartitions`) and freeing (`FindAllocated`,
  `MarkFree`, `Free`). `Replay` performs a sequence of calls, so that the
  invariant can be stated for every reachable table. The module also holds
  `Coalesce`, a run-by-run reference definition of coalescing, and the lemma
  that the merge pass computes it.
- `demo.dfy`, module `Demo`: the demonstration script replayed step by step,
  plus two concrete selection cases.

Selection follows the source's loop exactly, with `-1` sentinels for the best
index and the best size. Its contract uses an independent characterisation,
`IsWorstFit`. The selected partition is free and large enough, and no eligible
partition is larger. Every eligible partition before it is strictly smaller, so
ties go to the lowest index. On a valid table index order is address order,
so ties go to the lowest address (`WorstFitLowestAddress`). The merge pass
follows the source's loop too: after a merge, the `i--` makes it look at the
same index again.

Error handling, coalescing and the result of allocation, as the code has them:

- The source signals no errors. A failed allocation and a free at an address
  that is not an allocated start leave the table unchanged and return nothing.
  Construction with a non-positive size is not rejected. The model returns the
  unchanged table and states exactly when that happens.
- Coalescing is one global pass over the whole table. It merges every
  adjacent free pair, not only those next to the freed partition. On a valid
  table, the only adjacent free pairs after marking are the ones the freed
  partition forms with its neighbours, so only those merge.
- Allocation returns nothing. The new block's address is the selected
  partition's start, as `AllocateSplit` and `AllocateExact` state.

## Model

| member | source | states |
|---|---|---|
| Partitions.Partition | src/WorstFit.java:4-15 | a partition is a start address, a size and an allocated flag; the Java constructor sets the flag to free by default, and the model does the same by passing `false` wherever a partition is created (`Init`, the remainder in `Place`) |
| WorstFit.Init | src/WorstFit.java:21-24 | the new table is valid for `total`, and it holds exactly one partition, which is free, starts at 0 and has size `total` |
| WorstFit.Scan | src/WorstFit.java:28-38 | the selection loop, started with any consistent best-so-far, finds nothing exactly when no partition is free and at least `req` in size; otherwise its index meets the worst-fit conditions |
| WorstFit.Select | src/WorstFit.java:28-44 | the returned index is free and can hold `req`; no eligible partition is larger; every eligible partition before it is strictly smaller, so the lowest index wins ties (on a valid table that is the lowest address, by `WorstFitLowestAddress`); nothing is returned exactly when nothing fits |
| WorstFit.WorstFitUnique | src/WorstFit.java:32-38 | the worst-fit conditions pin down a single index, so the tie-break is deterministic |
| WorstFit.WorstFitLowestAddress | src/WorstFit.java:32-38 | on a valid table, an eligible partition as large as the worst fit lies at the same or a higher address, so ties go to the lowest address |
| WorstFit.Place | src/WorstFit.java:50-58 | the chosen partition keeps its start, takes size `req` and becomes allocated; if it was larger, a free remainder at `start + req` of the leftover size is inserted after it; all other partitions keep their order; those before it keep their indices, and in the split case those after it move up one index |
| WorstFit.Allocate | src/WorstFit.java:27-60 | the table is unchanged exactly when no free partition has size at least `req`; otherwise it grows by at most one partition |
| WorstFit.AllocateSplit | src/WorstFit.java:50-58 | when the selected partition is larger than the request, the result has one more partition: the allocated part at the old start with size `req`, then the free remainder, with every other partition unchanged |
| WorstFit.AllocateExact | src/WorstFit.java:50-58 | when the selected partition has exactly the requested size, the length is unchanged and only its flag flips to allocated |
| WorstFit.PlaceSplitTiles | src/WorstFit.java:50-54 | splitting a partition of a tiling into the allocated part and the free remainder keeps the tiling of the same range |
| WorstFit.PlaceSplitValid | src/WorstFit.java:50-58 | in a valid table, whatever follows the free remainder of a split is allocated (or nothing follows it), so the split keeps the table valid |
| WorstFit.PlaceValid | src/WorstFit.java:50-58 | placing a positive request in an eligible partition of a valid table keeps the tiling, the positive sizes and the no-adjacent-free property |
| WorstFit.AllocateValid | src/WorstFit.java:27-60 | a positive request keeps a valid table valid, and the sizes still add up to the total memory |
| WorstFit.MergePass | src/WorstFit.java:79-91 | the merge loop from a given index never lengthens the table |
| WorstFit.MergePassIsCoalesce | src/WorstFit.java:79-91 | the merge pass from index `i` leaves the partitions before `i` alone and turns the rest into the reference coalescing: each maximal free run becomes one free partition at the run's lowest start, sized the sum of the run |
| WorstFit.MergeStep | src/WorstFit.java:84-88 | when partitions `i` and `i + 1` are free, one merge followed by a recheck at the same index yields the untouched prefix before `i` followed by the reference coalescing of the whole table from `i` on |
| WorstFit.CoalesceMergeHead | src/WorstFit.java:84-88 | folding the upper of two adjacent free partitions into the lower one before coalescing does not change the outcome |
| WorstFit.CoalesceKeepsHead | src/WorstFit.java:84-89 | a head partition that is allocated, or free with no free successor, stays unchanged at the front of the coalesced table |
| WorstFit.CoalesceNoAdjacentFree | src/WorstFit.java:79-91 | after coalescing, no two adjacent partitions are free |
| WorstFit.CoalesceNoOp | src/WorstFit.java:79-91 | a table with no adjacent free pair is left exactly as it is |
| WorstFit.CoalesceIdempotent | src/WorstFit.java:79-91 | coalescing twice gives the same table as coalescing once |
| WorstFit.CoalesceTiles | src/WorstFit.java:84-87 | coalescing a tiling of `[lo, hi)` with positive sizes gives a tiling of the same range with positive sizes |
| WorstFit.CoalesceAllocs | src/WorstFit.java:84-87 | coalescing keeps the allocated partitions, unchanged and in order |
| WorstFit.MergeFreePartitions | src/WorstFit.java:79-91 | after the full pass no two adjacent partitions are free, whatever the input, and the allocated partitions are the same as before |
| WorstFit.FindAllocated | src/WorstFit.java:64-66 | returns the first index holding an allocated partition that starts at the address, or nothing exactly when there is none |
| WorstFit.MarkFree | src/WorstFit.java:68 | partition `i` keeps its start and size and becomes free; the length and every other partition are unchanged; so exactly that partition leaves the allocated ones |
| WorstFit.Free | src/WorstFit.java:63-76 | the table is unchanged exactly when no allocated partition starts at the address; otherwise one allocated partition is gone and no two adjacent partitions are free |
| WorstFit.FreeFound | src/WorstFit.java:64-71 | when `i` is the first allocated partition starting at the address, freeing marks exactly partition `i` free and runs the merge pass |
| WorstFit.FreeCoalesces | src/WorstFit.java:66-71 | freeing equals the reference coalescing of the table with the found partition marked free |
| WorstFit.FreeKeepsAllocated | src/WorstFit.java:66-71 | every allocated partition other than the freed one survives, unchanged and in order |
| WorstFit.FreeValid | src/WorstFit.java:63-76 | freeing keeps a valid table valid, and the sizes still add up to the total memory |
| WorstFit.ReplayValid | src/WorstFit.java:21-91 | from a valid table, any sequence of positive allocations and frees at any addresses keeps the table valid, with sizes adding up to the total memory |
| WorstFit.ReachableValid | src/WorstFit.java:21-91 | every table the allocator can reach from construction tiles the memory from 0 to `total`, has positive sizes and has no two adjacent free partitions |
| Demo.DemoAllocA | src/WorstFit.java:105-111 | allocating 400 in a fresh 1000-unit memory gives `[{0,400,A},{400,600,F}]` |
| Demo.DemoAllocB | src/WorstFit.java:114 | allocating 250 next gives `[{0,400,A},{400,250,A},{650,350,F}]` |
| Demo.DemoAllocC | src/WorstFit.java:117 | allocating 200 next gives `[{0,400,A},{400,250,A},{650,200,A},{850,150,F}]` |
| Demo.DemoFreeA | src/WorstFit.java:120 | freeing address 0 flips that partition to free and merges nothing |
| Demo.DemoAllocD | src/WorstFit.java:123 | allocating 230 picks the 400-unit hole over the 150-unit one, giving `[{0,230,A},{230,170,F},{400,250,A},{650,200,A},{850,150,F}]` |
| Demo.DemoAllocE | src/WorstFit.java:126 | allocating 300 fits nowhere and leaves the table unchanged |
| Demo.DemoFreeB | src/WorstFit.java:129 | freeing address 400 merges it with the free 170 below into one free 420 at 230 |
| Demo.DemoAllocF | src/WorstFit.java:132 | allocating 220 splits the merged hole into `{230,220,A}` and `{450,200,F}` |
| Demo.DemoLargestWins | src/WorstFit.java:32-38 | with free holes of 50, 200 and 80 and a request of 60, the 200-unit hole is selected |
| Demo.DemoTieGoesLow | src/WorstFit.java:32-38 | of two free holes of equal largest size, the one at the lower address is selected |

## Left out

- Console output: the messages printed on allocation, failure and freeing, and
  `displayPartitionStatus`. They present state and compute nothing.
- The `main` method as code. Its script is replayed as the `Demo` lemmas.
- The process name passed to allocation. It is only printed and never stored.
- Java `int` arithmetic: sizes and addresses are unbounded integers, so
  overflow of `start + size` is not modelled.
- WorstFit.Init: requires `total > 0`. The Java constructor accepts any size
  and would build a table with a non-positive partition.
- WorstFit.Allocate: requires `req > 0`. The Java method accepts any size. A
  zero request would create a zero-size allocated partition, and a negative
  one a partition of negative size.
- WorstFit.Select: requires `req >= 0`. For such a request every eligible
  size is at least 0, so it beats the `-1` starting maximum. For a negative
  request, a free partition whose size lies in `[req, -1]` is eligible but
  never beats the sentinel. The characterisation fails exactly when some
  partition is eligible and every eligible one has a size in that range. A
  table with positive sizes never has such a partition.
- WorstFit.Scan: requires `req >= 0`, as for `Select`.
- Object identity: the Java partitions are mutable objects in an array list.
  The model replaces them with values, so aliasing is not modelled. No
  partition escapes the allocator in the source.

# Verified models of the sorting, scheduling and allocation core

This project models five parts of the Rust compiler tree and proves what they are for.

* **The stable slice sort** (`StableOrder`, `Comparators`, `RunStack`, `Insertion`, `TwoWayMerge`,
  `NaturalRuns`, `SliceSort`) and its relatives: `sort_by_cached_key` (`CachedKey`) and `repeat`
  (`Repeat`, which allocates through `RawVecs`). The sort is taken as the in-place algorithm it is,
  with an arbitrary comparison closure that may keep state, contradict itself and panic at any call.
  Whatever the closure does, the sort stops after `O(n log n)` questions, early exactly if one of them
  ended in a panic, and the slice is a permutation of what it was; if the closure answers by a
  strict weak order, the slice is *the* stable sort of what it was, since there is only one. The
  invariants of the run stack hold although `collapse` looks at only four runs; an example shows that
  three would not do.
* **The step scheduler of the bootstrap** (`StepGraph`, `Scheduler`, `BootstrapSteps`, `Interning`).
  `Builder::ensure`, with its cache, call stack, parent and clock, refines plain recursion. It always
  returns over a finite set of steps, and reports a cycle exactly where a chain of requests comes back
  to a step, which is exactly where plain recursion would not end. The real step graph has a rank, so
  it has no cycle, in any configuration; the assertion about stage 0 compilers never fails from a root
  whose compiler has a stage of at least 1 or is for the build machine, in any configuration; and what
  becomes of the request of a compiler, including unknown code generation backends, is stated exactly.
* **The raw vector** (`RawVecs`): ownership of its block, capacity arithmetic in machine words of 16,
  32 or 64 bits, zero-sized elements, and the conservation of memory over whole lives.
* **The table of powers of ten** (`DecimalTables`, `Powers`): the scaling loop of `algorithm_m` and its
  round-half-even, over exact reals, and that the script gets through its whole table, because no power
  of five up to the 305th comes within a thousandth of a power of two.
* **The crate graph and the stamp files** (`CrateGraph`, `StampFile`): how the map of crates is built
  and walked, and that the reader of stamp files undoes the writer.

`Options` and `Products` hold what several of them need.

Code that updates things in place is modelled by methods and classes with the loops of the source;
where the source relies on a comment to justify unchecked arithmetic, an unread slot of memory or an
`unreachable!`, that justification is a proof here.

Three results differ from what the source says of itself, and the models follow the code:

* `algorithm_m` does not end for every positive number: it bounces forever between 2^63 - 1 and
  2^64 - 1 when the leading 64 bits of the number are all ones, 2^64 - 1 itself for example, because
  its test is `x >= MAX_SIG`. `DecimalTables.HaltsIff` gives the exact condition, and
  `DecimalTables.TableHalts` shows that the exponents of the table meet it.
* `repeat` does not return `n` copies of a slice of zero-sized elements in general: it takes the
  length from `capacity()`, which is `usize::MAX` for them. `Repeat.Repeat` gives the exact condition.
* `in_tree_crates` lists the root a second time if it depends on itself through other crates, because
  the root is not marked as visited. `CrateGraph.InTreeCrates` states the exact count, and
  `CrateGraph.RootListedTwice` gives a graph where it happens.

## Model

| member | source | states |
|---|---|---|
| StableOrder.StableSortUnique | src/liballoc/slice.rs:203-210 | stability pins the result down: two sorted sequences that hold every class of equal elements in the same order are the same sequence |
| StableOrder.MoveAcross | src/liballoc/slice.rs:850-855 | an element may move past elements it is not equal to without loss, duplication or reordering of equals; it is how both merge directions and insertion stay stable |
| StableOrder.RearrangesPart | src/liballoc/slice.rs:1001-1004 | rearranging a subslice in place rearranges the slice, and keeps stability |
| Comparators.Comparator.IsLess | src/liballoc/slice.rs:925-926 | one call of an arbitrary `FnMut` comparator: the answer may depend on every earlier call and may be a panic; the call is recorded, and the panics can be counted from the record |
| Insertion.HeadMovedInOrder | src/liballoc/slice.rs:733-735 | moving the head past exactly the elements less than it is a stable rearrangement, and sorts the slice if its rest was sorted |
| Insertion.ShiftLoop | src/liballoc/slice.rs:776-782 | while the head is in the air, the elements below the hole are those that were said to be less than it, one place down, and those above are where they were; a panic leaves this as it is |
| Insertion.ShiftHead | src/liballoc/slice.rs:739-797 | for any comparator, panicking at any call: once the hole is dropped the slice is its old contents with the head moved `k` places, every passed element was said to be less and the next one was not; at most `len - 1` questions |
| Insertion.HeadStays | src/liballoc/slice.rs:739-739 | in a sorted slice the head is not moved |
| Insertion.InsertHead | src/liballoc/slice.rs:736-798 | `v[..]` becomes sorted if `v[1..]` was, stably; and even if the comparator panics or lies the slice keeps its elements and nothing outside changes; it gives up if and only if a question ended in a panic, which is then the last; a slice that is sorted costs one question |
| TwoWayMerge.StepForward | src/liballoc/slice.rs:848-857 | one round writes the right element if it was said to be less and else the left one, and moves the pointers so that the gap still has the length of what the buffer holds; a panic leaves everything in place |
| TwoWayMerge.WriteBefore | src/liballoc/slice.rs:875-880 | a write from the end downwards extends what is written and touches nothing else |
| TwoWayMerge.StepBackward | src/liballoc/slice.rs:872-881 | the mirror image, from the end of the slice downwards |
| TwoWayMerge.DropHole | src/liballoc/slice.rs:883-910 | when the hole is dropped, the unconsumed part of the buffer fits exactly between what is written and what is still in place |
| TwoWayMerge.ForwardLoop | src/liballoc/slice.rs:834-857 | no unread element is overwritten: the unread part of the right run is intact, the gap before it has the length of the unread part of the buffer, and what is written came about by rounds of the merge; it ends with a run used up unless the comparator panics |
| TwoWayMerge.BackwardLoop | src/liballoc/slice.rs:858-882 | the mirror image, with the right run in the buffer |
| TwoWayMerge.MoreForward | src/liballoc/slice.rs:851-856 | whichever run an element is taken from, the state is that of one more round; the right run only if it was said to be less |
| TwoWayMerge.MoreBackward | src/liballoc/slice.rs:875-880 | the mirror image |
| TwoWayMerge.TakeRight | src/liballoc/slice.rs:849-853 | taking the lesser right element keeps the written part sorted and below all that is left, and keeps equal elements in order |
| TwoWayMerge.TakeLeft | src/liballoc/slice.rs:850-855 | taking the left element when the right one is not less does so too: equal elements come from the left first |
| TwoWayMerge.TakeLastLeft | src/liballoc/slice.rs:873-876 | taking the greater left element from the end keeps the written part sorted and above all that is left, and stable |
| TwoWayMerge.TakeLastRight | src/liballoc/slice.rs:874-879 | so does taking the right element when it is not less: equal elements come from the right first |
| TwoWayMerge.ForwardRoundsKeep | src/liballoc/slice.rs:848-857 | after any number of rounds on two sorted runs, written and unread elements together are a stable rearrangement of the input, in order |
| TwoWayMerge.BackwardRoundsKeep | src/liballoc/slice.rs:872-881 | the mirror image |
| TwoWayMerge.MergeForward | src/liballoc/slice.rs:834-857 | for any comparator, the slice ends as written, unread left and unread right elements in this order; one of the latter is empty unless the comparator panicked |
| TwoWayMerge.MergeBackward | src/liballoc/slice.rs:858-882 | the mirror image |
| TwoWayMerge.ForwardEnds | src/liballoc/slice.rs:815-832 | any such outcome is a permutation of the two runs, and for sorted runs with one of them used up it is their stable merge |
| TwoWayMerge.BackwardEnds | src/liballoc/slice.rs:815-832 | the mirror image |
| TwoWayMerge.MergeShorter | src/liballoc/slice.rs:834-883 | in whichever direction, the two runs end up permuted in place, and stably merged if they were sorted and the comparator did not panic |
| TwoWayMerge.Merge | src/liballoc/slice.rs:807-911 | with a buffer for the shorter run only: a permutation for any comparator, the sorted stable merge for sorted runs, nothing outside touched, at most `len - 1` questions; it gives up if and only if a question ended in a panic, which is then the last |
| RunStack.CollapseWhen | src/liballoc/slice.rs:1016-1036 | `collapse` demands a merge exactly when the top run begins the slice or one of the two invariants fails for one of the top two entries |
| RunStack.CollapseWhich | src/liballoc/slice.rs:1037-1041 | it always merges the run below the top, and with the shorter of its neighbours |
| RunStack.CollapseSettles | src/liballoc/slice.rs:916-924 | when `collapse` is content with the top four runs, both length invariants hold for every entry of the stack (also `slice.rs:1023-1028`) |
| RunStack.MergedTiles | src/liballoc/slice.rs:1005-1009 | merging two neighbours keeps the runs covering the slice without gap or overlap |
| RunStack.MergeKeeps | src/liballoc/slice.rs:998-1010 | every merge that `collapse` demands, of either pair, keeps the tiling and the invariants below the top two runs |
| RunStack.PushKeeps | src/liballoc/slice.rs:990-995 | so does pushing a run onto a settled stack |
| RunStack.RunsFit | src/liballoc/slice.rs:999-1003 | every pending run is a non-empty part of the slice and ends where the next one begins, so the subslice to merge is in bounds |
| RunStack.CollapseFinishes | src/liballoc/slice.rs:1013-1014 | at the end exactly one run remains, and it is the whole slice |
| RunStack.TopThreeIsNotEnough | src/liballoc/slice.rs:1020-1027 | with the fourth comparison left out there is a settled stack on which a push and a merge leave the invariants broken |
| RunStack.LengthsAreFibonacci | src/liballoc/slice.rs:921-922 | under the invariants run lengths grow at least like the Fibonacci numbers |
| RunStack.HeightIsLogarithmic | src/liballoc/slice.rs:921-924 | the height of the stack is bounded by a Fibonacci number of the length, hence by its logarithm |
| RunStack.MergeIsPaidFor | src/liballoc/slice.rs:924 | amortised cost: the potential that a merge releases, together with an overdraft of at most the top run, pays for its comparisons |
| NaturalRuns.Reverse | src/liballoc/slice.rs:973 | reverses the run in place and touches nothing else |
| NaturalRuns.ReversedInOrder | src/liballoc/slice.rs:963 | reversing a strictly descending run is stable and sorts it (also `slice.rs:973`) |
| NaturalRuns.ScanRun | src/liballoc/slice.rs:964-980 | all neighbours in the run found got the same answer, from a comparator that may panic, and the element before the run got the other one; at most one question for each element |
| NaturalRuns.ScannedInOrder | src/liballoc/slice.rs:964-980 | equal answers about neighbours make the whole run sorted, or strictly descending |
| NaturalRuns.SortedIsScanned | src/liballoc/slice.rs:964-980 | in a slice that is already sorted the scan gets to the beginning |
| NaturalRuns.NaturalRun | src/liballoc/slice.rs:962-981 | the stretch found is sorted afterwards, stably, and the rest of the slice is untouched; it gives up if and only if a question ended in a panic, which is then the last; the run cannot be extended by the element before it, and what is already sorted is found whole with one question for each pair of neighbours |
| NaturalRuns.ExtendRun | src/liballoc/slice.rs:983-988 | the extended run is sorted and has at least `MIN_RUN` elements unless it begins the slice; it gives up if and only if a question ended in a panic, which is then the last |
| NaturalRuns.NextRun | src/liballoc/slice.rs:962-988 | both together, within `MIN_RUN - 1` questions for each element of the run; it gives up if and only if a question ended in a panic, which is then the last |
| SliceSort.MergeRuns | src/liballoc/slice.rs:999-1009 | a buffer of `len / 2` is enough for any two neighbouring runs, all pending runs are sorted afterwards, and the cost is at most the sum of the two lengths; it gives up if and only if a question ended in a panic, which is then the last |
| SliceSort.SettleOnce | src/liballoc/slice.rs:998-1009 | one merge keeps the runs tiling the slice and sorted, and is paid for by the potential it releases |
| SliceSort.SettleRuns | src/liballoc/slice.rs:997-1010 | the inner loop ends with both invariants on the whole stack, all runs sorted, and its comparisons paid for by the potential; it gives up if and only if a question ended in a panic, which is then the last |
| SliceSort.SortedStays | src/liballoc/slice.rs:943-945 | sorting stably what is sorted changes nothing |
| SliceSort.InsertNext | src/liballoc/slice.rs:943-945 | one insertion makes the sorted end of the slice longer by one, stably |
| SliceSort.InsertionSort | src/liballoc/slice.rs:940-948 | short slices end stably sorted, and permuted for any comparator; it gives up if and only if a question ended in a panic, which is then the last |
| SliceSort.PushSettling | src/liballoc/slice.rs:990-995 | a sorted run pushed onto settled ones leaves all of them sorted and tiling the slice, and the inner loop may begin |
| SliceSort.PushRun | src/liballoc/slice.rs:963-995 | the run found is pushed: the stack tiles the slice further down, every run is sorted, and the cost is a logarithmic rate for each element; it gives up if and only if a question ended in a panic, which is then the last |
| SliceSort.PushAndSettle | src/liballoc/slice.rs:962-1010 | a run is found and pushed and the stack settled, whose merges its potential pays for |
| SliceSort.AddRun | src/liballoc/slice.rs:962-1011 | one round of the outer loop keeps tiling, sortedness, the invariants and the budget, and what was asked so far is within the bound; it gives up if and only if a question ended in a panic, which is then the last |
| SliceSort.PaidOn | src/liballoc/slice.rs:924-924 | after every round, what all merges so far have cost is covered by a logarithmic rate for each element scanned, up to the length of the top run |
| SliceSort.AllReached | src/liballoc/slice.rs:1013-1014 | when the loop has come to the beginning of the slice, one sorted run is left, and it is the slice |
| SliceSort.RunSort | src/liballoc/slice.rs:950-1014 | long slices end stably sorted, within the comparison bound, and with `len - 1` questions if they were sorted; for any comparator whose calls do not panic, consistent or not, exactly one run is left, which covers the slice |
| SliceSort.MaxComparisonsAre | src/liballoc/slice.rs:924-924 | the bound is the length times three times the greatest height of the stack, and ten |
| SliceSort.MergeSort | src/liballoc/slice.rs:913-1014 | for any comparator it stops within `len * (6 log2(len + 1) + 13)` questions with a permutation of the slice; it gives up if and only if a question ended in a panic, which is then the last; for a strict weak order it ends with the stable sort, and asks at most `len - 1` questions of a slice that is already sorted; zero-sized elements are left alone and not compared |
| CachedKey.SortByKey | src/liballoc/slice.rs:287-291 | for any key closure and any order of the keys, both of which may keep state and panic, a permutation; if the closure is pure and the order lawful, the stable sort by key, in which no key is less than an earlier one; it gives up only if one of them can panic |
| CachedKey.IncreasingUnique | src/liballoc/slice.rs:334-336 | indices of equal elements, sorted by index, are the original order: two increasing sequences with the same elements are the same |
| CachedKey.GatherKeepsClasses | src/liballoc/slice.rs:334-336 | taking elements by a permutation of indices that increases on equal elements keeps equal elements in order |
| CachedKey.GatherSorts | src/liballoc/slice.rs:331-337 | although the pairs are sorted unstably, gathering by their indices is the stable sort by key |
| CachedKey.LeadsOn | src/liballoc/slice.rs:339-345 | after the swap at `i`, chasing that ended at `i` ends at the other swapped place, and all other chases end where they did |
| CachedKey.NotPlaced | src/liballoc/slice.rs:340-343 | the element wanted at `i` is never among those already placed |
| CachedKey.SwapChased | src/liballoc/slice.rs:344-345 | the chasing invariant for `i` becomes that for `i + 1`: one more element is in its final place, and all others are still found |
| CachedKey.Chase | src/liballoc/slice.rs:340-343 | the inner loop ends, each index being greater than the one before, at the place where the wanted element is now |
| CachedKey.PlaceNext | src/liballoc/slice.rs:339-346 | a round of the loop puts the right element at `i` |
| CachedKey.PermuteByIndices | src/liballoc/slice.rs:339-346 | `slice[i]` becomes the original element at the `i`-th sorted index, for every permutation of indices |
| CachedKey.CollectKeys | src/liballoc/slice.rs:331-333 | the key closure is called once for every element, in order, and the narrowed index is the true one |
| CachedKey.PairsPermuted | src/liballoc/slice.rs:334-337 | in whatever order an unlawful `Ord` leaves the pairs, their indices are a permutation |
| CachedKey.SortWithIndices | src/liballoc/slice.rs:331-347 | with any index type that can count the slice nothing is lost by narrowing: a permutation for any closure and any `Ord`, the stable sort for a pure key with a lawful one, and an untouched slice if either panics |
| CachedKey.SortByCachedKey | src/liballoc/slice.rs:327-361 | whichever index type is chosen, and it is the smallest that counts the slice and makes the pairs smaller: the stable sort by key for a pure key and a lawful order, in which no key is less than an earlier one; a permutation for any closure and any `Ord`; the slice untouched if one of them panics; and the key closure called just once for every element |
| CachedKey.CachedKeysAgree | src/liballoc/slice.rs:287-291 | for a pure key `sort_by_cached_key` and `sort_by_key` end with the same slice (also `slice.rs:327-361`) |
| Repeat.CopiesAt | src/liballoc/slice.rs:403-424 | element by element, `n` copies repeat with the period of the slice |
| Repeat.DoublingFits | src/liballoc/slice.rs:440-458 | while bits are left to shift out there is room to double, and the doubling is on its way to the leftmost 1 bit |
| Repeat.Double | src/liballoc/slice.rs:438-459 | the loop stops with exactly `2^floor(log2 n)` copies |
| Repeat.Remainder | src/liballoc/slice.rs:461-470 | what is left to copy is a prefix of what is built, so the copy does not overlap, and it completes `n` copies |
| Repeat.CopyRest | src/liballoc/slice.rs:463-471 | after the tail copy the buffer begins with `n` copies |
| Repeat.Fill | src/liballoc/slice.rs:438-476 | after the allocation: the buffer begins with `n` copies, and the length is the capacity exactly if a tail was copied |
| Repeat.Repeat | src/liballoc/slice.rs:424-477 | it panics exactly if `len * n` is no `usize` or `with_capacity` refuses that many elements, which depends on their size, their alignment and the platform; it is aborted only by a refusal of the allocator, which is asked once, for just the bytes needed, and not at all if there are none; otherwise the vector owns its block, its buffer begins with `n` copies, and the length is `len * n` if and only if the elements have a size or no tail is copied (or `len * n` is `usize::MAX`); else the length is `usize::MAX` (also `raw_vec.rs:82-112`, `raw_vec.rs:232-238`) |
| Repeat.ZeroSizedElementsGoWrong | src/liballoc/slice.rs:463-474 | three copies of one zero-sized element do not meet the condition (also `raw_vec.rs:232-238`) |
| DecimalTables.HaltsIff | src/etc/dec2flt_table.py:33-53 | the loop ends if and only if the leading 64 bits of `f * 10^e` are not all ones |
| DecimalTables.LeadingBits | src/etc/dec2flt_table.py:41-52 | every positive number has leading 64 bits: scaling it by powers of two into [2^63, 2^64) always ends |
| DecimalTables.LeadingBitsAllOnes | src/etc/dec2flt_table.py:41-52 | they are all ones if and only if some power of two scales the number to the whole part 2^64 - 1 |
| DecimalTables.NeverFinishes | src/etc/dec2flt_table.py:43-52 | a number of that kind keeps the loop running after any number of rounds |
| DecimalTables.StepComesCloser | src/etc/dec2flt_table.py:43-52 | any other number comes closer to the end with every round, and stays of the other kind |
| DecimalTables.AllOnesNeverHalts | src/etc/dec2flt_table.py:47-49 | 2^64 - 1 itself is never converted |
| DecimalTables.StartValue | src/etc/dec2flt_table.py:34-41 | the loop starts with the number `f * 10^e` |
| DecimalTables.StepValue | src/etc/dec2flt_table.py:44-49 | every round keeps `u / v * 2^k` |
| DecimalTables.RatioRounds | src/etc/dec2flt_table.py:56-74 | the result is the value rounded to nearest with ties to even (roundTiesToEven, section 4.3.1 of IEEE 754-2008), in the same binade: the carry in `next_float` is never needed |
| DecimalTables.RoundingUnique | src/etc/dec2flt_table.py:56-67 | there is only one such rounding of a number, over all significands and exponents |
| DecimalTables.ErrorIsDistance | src/etc/dec2flt_table.py:77-83 | the error, before the script turns it into a floating-point number, is the distance between number and result in units of the last place |
| DecimalTables.PowersOfTenNeverTie | src/etc/dec2flt_table.py:101-109 | a power of ten never lies halfway between two floats, for any exponent |
| DecimalTables.AlgorithmM | src/etc/dec2flt_table.py:33-53 | whenever the loop ends: the result is the rounding of `f * 10^e`, off by at most half a unit, by exactly half only for an even significand, and by less than half for a power of ten (also `dec2flt_table.py:106-109`) |
| Powers.PowersApart | src/etc/dec2flt_table.py:101-107 | no power of five from the first to the 305th comes within a thousandth of any power of two |
| DecimalTables.FiveNotAllOnes | src/etc/dec2flt_table.py:43-52 | so no such power of five, however shifted, has 64 leading ones |
| DecimalTables.OneFifthNotAllOnes | src/etc/dec2flt_table.py:43-52 | nor has the inverse of one |
| DecimalTables.TableHalts | src/etc/dec2flt_table.py:101-107 | the loop ends for `f = 1` and every exponent from -305 to 305 |
| DecimalTables.ProperPowers | src/etc/dec2flt_table.py:101-110 | the script gets through its whole table, and every entry is the rounding of its power of ten with an exact error of less than half a unit |
| StepGraph.EvalMeans | src/bootstrap/builder.rs:1251-1253 | the meaning of a step does not depend on how deep recursion was allowed to go |
| StepGraph.RunMeans | src/bootstrap/builder.rs:1314 | a step whose requests were answered truly means what it goes on to do |
| StepGraph.RequestDiverges | src/bootstrap/builder.rs:1257-1271 | a step does not end if something it requests does not |
| StepGraph.CycleDiverges | src/bootstrap/builder.rs:1257-1271 | a chain of requests that comes back to a step never ends |
| StepGraph.DivergesIffCycle | src/bootstrap/builder.rs:1257-1271 | over finitely many steps recursion fails to end if and only if some chain of requests from the step comes twice to one step |
| StepGraph.FiniteReach | src/bootstrap/builder.rs:1251-1253 | a step that ends can only ever request finitely many steps |
| StepGraph.RequestsAreMade | src/bootstrap/builder.rs:1314 | what a step requests at all is what it requests on its way to its end |
| StepGraph.RequestsAre | src/bootstrap/builder.rs:1314 | a step that goes on as a list says, whatever true answers it receives, requests just that list, in order |
| StepGraph.RankedEnds | src/bootstrap/builder.rs:1254-1343 | if requests go down in rank, recursion ends; and from a step that can only come to known panics, it ends with an output or with one of those |
| StepGraph.AlongPath | src/bootstrap/builder.rs:1254-1343 | what requests pass on from step to step holds all along a chain of requests |
| Scheduler.PushConsistent | src/bootstrap/builder.rs:1291 | pushing an uncached step that is not on the stack keeps stack and cache disjoint, and the step never ran before |
| Scheduler.PopConsistent | src/bootstrap/builder.rs:1331-1341 | popping a finished step whose requests are all cached, and caching its true output, keeps all that is known of the builder, and the step was not in the cache |
| Scheduler.CacheIsClosed | src/bootstrap/builder.rs:1251-1253 | all that a cached step requests is cached, and so is all that a chain of requests leads to |
| Scheduler.RanSoFarGoesOn | src/bootstrap/builder.rs:1314 | a further request runs just what is newly cached, and only what the step leads to |
| Scheduler.StackCycle | src/bootstrap/builder.rs:1257-1271 | a step found on the stack really lies on a cycle of requests |
| Scheduler.TotalAdds | src/bootstrap/builder.rs:1310-1318 | own times add up over consecutive parts of a build |
| Scheduler.Builder.CachePut | src/bootstrap/cache.rs:249-258 | the assertion "a second time" guards a write-once cache; it is discharged at the only call |
| Scheduler.Builder.OnStack | src/bootstrap/builder.rs:1257-1271 | the scan finds a step if and only if it is being run |
| Scheduler.Builder.Begin | src/bootstrap/builder.rs:1291-1313 | starting a step pushes it, makes it the parent and sets the accumulated time to zero; it does not run it |
| Scheduler.Builder.StopClock | src/bootstrap/builder.rs:1315-1317 | the subtraction of the time of dependencies does not underflow, and own times keep adding up |
| Scheduler.Builder.Complete | src/bootstrap/builder.rs:1315-1341 | finishing a step: what is popped is the step, it was not cached before, stack and parent are restored, and its own time is the duration less that of its dependencies |
| Scheduler.Builder.Enter | src/bootstrap/builder.rs:1314 | the body of a step may be entered only if it never was before; the record of entered bodies grows by the step |
| Scheduler.Builder.Ask | src/bootstrap/builder.rs:1314 | a request of the running step is put on record before it is ensured, and is cached afterwards |
| Scheduler.Builder.Run | src/bootstrap/builder.rs:1314 | running a step through cached requests has the outcome of plain recursion, panic messages included; its body is entered once, and the requests on record are those of its run, each made once and in order, all of them cached |
| Scheduler.Builder.RunAndCache | src/bootstrap/builder.rs:1290-1342 | a step that is neither cached nor being run ends as plain recursion does, and once it has an output it is cached; the bodies entered meanwhile are those of the newly cached steps, which are those it leads to, each once |
| Scheduler.Builder.Ensure | src/bootstrap/builder.rs:1254-1343 | it always returns, with the outcome of plain recursion, and reports a cycle if and only if a chain of requests from the step comes twice to one step; even after a panic the builder is consistent, its cache only grew and no body was entered twice; with an output, stack and parent are as before, the bodies entered are exactly those of the steps that the request leads to and that were not cached, and their own times sum to the duration of the call; a cache hit enters nothing and adds nothing (also `cache.rs:249-268`) |
| BootstrapSteps.AssembleBuilds | src/bootstrap/compile.rs:844-933 | assembling a compiler, if it succeeds, puts out that very compiler (also `builder.rs:565-569`) |
| BootstrapSteps.RequestsGoDown | src/bootstrap/compile.rs:58-113 | in every configuration, every request that any step makes, uplifting from stage 1 included, goes to a step of lower rank (by stage, then kind), and from an obtainable compiler only to obtainable ones (also `compile.rs:409-464`, `compile.rs:568-591`, `compile.rs:844-896`, `lib.rs:897-901`) |
| BootstrapSteps.BootstrapEnds | src/bootstrap/compile.rs:844-933 | in every configuration no step ever depends on itself, and a step for an obtainable compiler never comes to the stage 0 assertion: it succeeds or stops at an unknown backend (also `builder.rs:582-593`, `native.rs:214-217`) |
| BootstrapSteps.StageZeroNeverFails | src/bootstrap/compile.rs:847-852 | in every configuration, on every chain of requests from a step for an obtainable compiler, no stage 0 compiler of another host is ever asked for |
| BootstrapSteps.UnknownBackendSkipped | src/bootstrap/compile.rs:568-600 | a step for an unknown backend succeeds only if its stage is kept, or it is lifted from a stage 1 that is kept (also `compile.rs:682`) |
| BootstrapSteps.AssembledStagesBuild | src/bootstrap/compile.rs:870-888 | a compiler comes out only if, at every stage below it, all backends are known or skipped |
| BootstrapSteps.AssembleIff | src/bootstrap/compile.rs:844-933 | what becomes of every request of a compiler in every configuration: the stage 0 assertion fails if and only if it is a stage 0 compiler of another host; otherwise it is assembled if and only if the stages below can build or skip all backends; and else it stops at an unknown backend |
| BootstrapSteps.RequestsFollowRecipe | src/bootstrap/compile.rs:58-113 | every step that comes to its end has requested just the steps written out for it, in this order, in every configuration (also `compile.rs:270-290`, `compile.rs:336-347`, `compile.rs:409-464`, `compile.rs:521-537`, `compile.rs:568-645`, `compile.rs:844-916`, `builder.rs:595-632`, `native.rs:51-61`, `native.rs:214-217`, `native.rs:452-460`) |
| BootstrapSteps.LinkedFrom | src/bootstrap/compile.rs:62-112 | libraries are linked from the compiler itself if its stage is kept, from stage 1 if there is no full bootstrap, the stage is at least 2 and the target is a host or the build machine, and else from its stage for the build machine (also `lib.rs:897-901`) |
| BootstrapSteps.RecipeCompletes | src/bootstrap/compile.rs:58-113 | a step whose requests have all been built is complete: a standard library or compiler is linked into the sysroot, a compiler has been given the libraries and all configured backends of the stage below (also `compile.rs:409-464`, `compile.rs:870-903`) |
| BootstrapSteps.CacheIsComplete | src/bootstrap/builder.rs:1254-1343 | every step in the cache made just the requests written out for it, once and in order, and is complete |
| BootstrapSteps.BuiltByRoots | src/bootstrap/builder.rs:1254-1343 | steps asked for one after the other leave in the cache just the steps that they lead to |
| BootstrapSteps.BuildRoot | src/bootstrap/builder.rs:1254-1343 | a step asked for ends as plain recursion does, never with a cycle report, keeps earlier outputs in the cache and adds just what it leads to |
| BootstrapSteps.Bootstrap | src/bootstrap/builder.rs:1254-1343 | a whole build with any list of steps asked for, in any configuration: they come out one after the other up to the first that panics, which never trips the stage 0 assertion if its compiler is obtainable; no cycle is reported and no step is run twice; every completed step made its requests once and in order and is complete, so that every standard library and compiler built is linked; and if all come out, just the steps that they lead to were built, stack and parent end empty and the own times add up |
| Interning.Interner.Intern | src/bootstrap/cache.rs:179-202 | a handle leads back to its item, and handles given out earlier keep their meaning |
| Interning.Interner.Get | src/bootstrap/cache.rs:204-206 | the item of a handle is interned under that very handle |
| Interning.InternAll | src/bootstrap/cache.rs:179-206 | over any run two handles are equal if and only if the items are, which is why steps may be compared by handle |
| RawVecs.RawVec.constructor | src/liballoc/raw_vec.rs:134-148 | an empty vector owns no block; its capacity is `usize::MAX` for zero-sized elements |
| RawVecs.RawVec.CurrentLayout | src/liballoc/raw_vec.rs:250-262 | the unchecked product does not wrap, and the layout is that of the block owned |
| RawVecs.RawVec.DoubleFits | src/liballoc/raw_vec.rs:324-335 | in every reachable state neither twice the capacity nor twice the size wraps |
| RawVecs.RawVec.FirstFits | src/liballoc/raw_vec.rs:347-354 | the first capacity, chosen without a guard, stays within `isize::MAX` bytes on every platform |
| RawVecs.RawVec.Double | src/liballoc/raw_vec.rs:314-360 | the capacity exactly doubles or starts at 4 (or 1); the panics are exactly the zero-sized and the guarded ones; any failure changes nothing; the rest of the heap is never touched; the allocator is asked at most once, with just the layout owned, and a failure to allocate is its refusal |
| RawVecs.RawVec.DoubleInPlace | src/liballoc/raw_vec.rs:376-409 | the block never moves; on success the capacity doubles, on failure nothing changes; the allocator is asked at most once, with just the layout owned, and a failure to allocate is its refusal |
| RawVecs.RawVec.RoomWraps | src/liballoc/raw_vec.rs:677-677 | the room is the wrapping difference of capacity and use |
| RawVecs.RawVec.TooLittleRoom | src/liballoc/raw_vec.rs:449-459 | if the wrapped room is too small and the checked sum succeeds, then `used` was honest, elements have a size, the new capacity is greater and doubling it does not wrap (also `raw_vec.rs:564-566`) |
| RawVecs.RawVec.AmortizedNewSize | src/liballoc/raw_vec.rs:449-459 | the unchecked `cap * 2` does not wrap, though `cap` may be `usize::MAX` for zero-sized elements, because the checked addition fails first; the result is the greater of `2 * cap` and `used + extra` |
| RawVecs.RawVec.ReserveInternal | src/liballoc/raw_vec.rs:662-712 | with room enough it succeeds and changes nothing; else it succeeds exactly if the allocator grants the one request made of it, for `used + extra` elements, or the greater of that and twice the capacity if amortised, with just the layout owned; an error changes nothing; a wrapped `used` and zero-sized elements never reach the allocator; capacity overflow is reported exactly when that size overflows, and an allocation error only to fallible callers |
| RawVecs.RawVec.Reserve | src/liballoc/raw_vec.rs:438-444 | the `unreachable!` arm is unreachable; it panics exactly on capacity overflow and is aborted exactly if the one request made of the allocator is refused |
| RawVecs.RawVec.ReserveInPlace | src/liballoc/raw_vec.rs:543-583 | the block never moves, success means the amortised capacity, `false` means that nothing was asked for, or that the allocator refused to grow the block in place |
| RawVecs.RawVec.ShrinkToFit | src/liballoc/raw_vec.rs:595-644 | the capacity becomes the amount, a block shrunk to nothing is freed, and it panics exactly if asked to grow; it is aborted only if the allocator refuses to shrink the block |
| RawVecs.RawVec.DeallocBuffer | src/liballoc/raw_vec.rs:738-753 | drop frees exactly the block owned, with its layout, and nothing else, and asks for nothing if there is none |
| RawVecs.RawVec.FromBox | src/liballoc/raw_vec.rs:211-217 | ownership of the block passes from the box to the vector |
| RawVecs.RawVec.IntoBox | src/liballoc/raw_vec.rs:727-733 | and back, with the real `cap`, so that also zero-sized boxes come back with their length |
| RawVecs.RawVec.WithCapacity | src/liballoc/raw_vec.rs:82-112 | it panics exactly if the size does not fit `usize`, or `isize` on the smaller platforms, or leaves no room for the alignment; a size of zero always succeeds and asks for nothing; else the allocator is asked once, for just the size, and the result is its answer, which beyond `isize::MAX` bytes is a refusal |
| RawVecs.ThroughBox | src/liballoc/raw_vec.rs:211-217 | a vector that goes through a box comes back with the same block and capacity (also `raw_vec.rs:727-733`) |
| RawVecs.Apply | src/liballoc/raw_vec.rs:314-753 | every operation in every reachable state, panicking or not, keeps the ownership invariant and all other blocks, does what it is for, and aborts only after a refusal of the allocator |
| RawVecs.Life | src/liballoc/raw_vec.rs:82-112 | conservation over whole lives: after any operations, and drop as a vector or as a box, the heap is as it was before, every block freed once with the layout it had; the process is aborted only after a refusal of the allocator |
| CrateGraph.OneMorePackage | src/bootstrap/metadata.rs:80-92 | a further package replaces the crate of its name, and a package with a source does nothing |
| CrateGraph.CollectCrates | src/bootstrap/metadata.rs:80-92 | the crates are the packages without a source, with their ids and whether they are local; of several with one name it is the last |
| CrateGraph.NameIds | src/bootstrap/metadata.rs:44-47 | in whatever order the map is iterated, ids lead to crates with that id |
| CrateGraph.AddNodes | src/bootstrap/metadata.rs:49-63 | the dependencies are exactly those that some node reports through known ids |
| CrateGraph.ReportedNext | src/bootstrap/metadata.rs:49-63 | what one more node adds to what is reported |
| CrateGraph.Build | src/bootstrap/metadata.rs:38-94 | the crates are the workspace packages, with their ids and whether they are local; every dependency is a key of the map; with distinct ids, the dependencies are exactly those that Cargo reports between workspace crates |
| CrateGraph.PushDeps | src/bootstrap/lib.rs:1111-1115 | in any iteration order, exactly the dependencies not seen before are pushed, once, except `build_helper` |
| CrateGraph.WalkOn | src/bootstrap/lib.rs:1106-1116 | each round keeps: all pushed is reached, dependencies of crates done are visited, and nothing is pushed twice save the root |
| CrateGraph.WalkEnds | src/bootstrap/lib.rs:1102-1118 | when the list is empty, exactly the root and the crates reached were taken, each as often as it should |
| CrateGraph.InTreeCrates | src/bootstrap/lib.rs:1102-1118 | on any graph and for any iteration order it ends, fails only for an unknown root, and lists exactly the local crates reached without entering `build_helper`, once each, and the root once more if it lies on a cycle |
| CrateGraph.RootListedTwice | src/bootstrap/lib.rs:1103-1116 | for two crates that depend on each other, the root is listed twice |
| CrateGraph.ListCrates | src/bootstrap/lib.rs:1102-1118 | from the metadata to the list: it fails only for a root that is no workspace package, and with distinct ids it lists just the local packages that are the root or that reported dependencies lead to without entering `build_helper`, once each, and the root once more if they lead back to it (also `metadata.rs:38-94`) |
| StampFile.WriteEntries | src/bootstrap/compile.rs:1080-1085 | the contents encode the list, unless a path is not text, which panics |
| StampFile.WriteStamp | src/bootstrap/compile.rs:1078-1086 | the file is the encoding of the sorted list of paths, unless a path is not text |
| StampFile.ReadStamp | src/bootstrap/lib.rs:1120-1138 | it yields what the contents decode to, panics exactly if a path among that is not text, and yields nothing in a dry run |
| StampFile.EncodedBytes | src/bootstrap/compile.rs:1081-1085 | byte by byte, the file of one path is an `h` for a host artifact or else a `t`, the path, and a NUL |
| StampFile.EncodedConcat | src/bootstrap/compile.rs:1080-1085 | the file of a list is the files of its parts one behind the other |
| StampFile.DecodeEntry | src/bootstrap/compile.rs:1081-1085 | an entry in front of any file is read back first, and does not disturb the rest (also `lib.rs:1129-1136`) |
| StampFile.RoundTripIff | src/bootstrap/compile.rs:1080-1085 | what is read is what was written if and only if no path holds a NUL byte (also `lib.rs:1120-1138`) |
| StampFile.WriteAndRead | src/bootstrap/lib.rs:1120-1138 | what is read back is the sorted list if and only if every path is text without a NUL byte (also `compile.rs:1078-1086`) |

## Left out

- CachedKey.SortUnstable: stands for `sort_unstable`, whose code is not among the modelled files; only the contract (a permutation, sorted for a lawful order) is used, and the body that meets it here is the stable sort.
- DecimalTables.ErrorIsDistance: the script's `error` ends with a conversion to a floating-point number, which is not modelled; an exact error just below one half could be converted to 0.5, so `err < 0.5` is proved of the exact error and not of the converted one.
- BootstrapSteps.Bootstrap: `Builder::cargo` contributes only the requests it makes, and of identical requests in a row only the first is listed, as the others are cache hits.
- RawVecs.RawVec.WithCapacity: `with_capacity_zeroed` differs only in the contents of memory, which are not modelled; `align_of` is taken to divide `size_of`.
- StampFile.ReadStamp: which byte strings are UTF-8 is a parameter, and reading the file is taken to succeed.
- Scheduler.Builder.Ensure: the build graph is not modelled beyond the current parent. Its nodes are found by Debug text, which different steps may share, so nothing is claimed of its shape.
- The contents of buffers, uninitialised memory and the dropping of elements in RawVec: only blocks, layouts and capacities are modelled.
- The allocator: an arbitrary one that keeps the rules of the `Alloc` trait and, on 64-bit platforms, refuses more than `isize::MAX` bytes, as the comment in raw_vec.rs:759-762 assumes.
- The sort's scratch buffer and the pairs of keys and indices are taken to be allocated successfully.
- Zero-sized elements in the sorts: the code returns early by design.
- Panics of steps other than the stage 0 assertion and an unknown code generation backend; commands, files, environment and dry-run effects of the steps.
- `print_short_powers` depends on a floating-point logarithm.
- The TORTIS transaction pass and its reader-writer lock: described in the repository's README, not part of this model.

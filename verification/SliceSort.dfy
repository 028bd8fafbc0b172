/** `merge_sort`, the stable sort behind `sort`, `sort_by` and `sort_by_key`. */
module SliceSort {
  import opened StableOrder
  import opened Comparators
  import opened RunStack
  import opened Insertion
  import opened TwoWayMerge
  import opened NaturalRuns
  import opened Options
  import opened Products

  /** The longest slice that is sorted by insertion alone, without a buffer. */
  const MAX_INSERTION := 20

  /** The most comparisons a sort makes: `O(n log n)`, for any comparator. */
  function MaxComparisons(len: nat): nat { Times(3 * MaxHeight(len) + 10, len) }

  lemma MaxComparisonsAre(len: nat, rate: nat)
    requires rate == 3 * MaxHeight(len) + 10
    ensures MaxComparisons(len) == len * rate
  {
    TimesIs(rate, len);
  }

  ghost predicate RunSorted<T(!new)>(less: (T, T) -> bool, w: seq<T>, run: Run) {
    run.start + run.len <= |w| && Sorted(less, w[run.start..run.start + run.len])
  }

  /** Every pending run is sorted. */
  ghost predicate RunsSorted<T(!new)>(less: (T, T) -> bool, w: seq<T>, runs: seq<Run>) {
    forall i :: 0 <= i < |runs| ==> RunSorted(less, w, runs[i])
  }

  lemma RunUntouched<T(!new)>(less: (T, T) -> bool, w: seq<T>, w': seq<T>, run: Run)
    requires |w| == |w'| && RunSorted(less, w, run)
    requires forall j :: run.start <= j < run.start + run.len ==> w'[j] == w[j]
    ensures RunSorted(less, w', run)
  {
    assert w'[run.start..run.start + run.len] == w[run.start..run.start + run.len];
  }

  /** Sorting a stretch below the pending runs makes it the next run. */
  lemma PushSorted<T(!new)>(less: (T, T) -> bool, w: seq<T>, w': seq<T>, runs: seq<Run>, run: Run)
    requires |w| == |w'| && Tiles(runs, run.start + run.len, |w|) && RunsSorted(less, w, runs)
    requires forall j :: run.start + run.len <= j < |w| ==> w'[j] == w[j]
    requires RunSorted(less, w', run)
    ensures RunsSorted(less, w', runs + [run])
  {
    forall i | 0 <= i < |runs| ensures RunSorted(less, w', runs[i]) {
      RunsFit(runs, run.start + run.len, |w|, i);
      RunUntouched(less, w, w', runs[i]);
    }
  }

  /** Merging two neighbouring runs leaves the others alone. */
  lemma MergeSorted<T(!new)>(less: (T, T) -> bool, w: seq<T>, w': seq<T>, runs: seq<Run>, end: nat, r: nat)
    requires |w| == |w'| && Tiles(runs, end, |w|) && RunsSorted(less, w, runs) && r + 1 < |runs|
    requires forall j :: 0 <= j < runs[r + 1].start && j < |w| ==> w'[j] == w[j]
    requires forall j :: runs[r].start + runs[r].len <= j < |w| ==> w'[j] == w[j]
    requires 0 <= runs[r + 1].start <= runs[r].start + runs[r].len <= |w|
    requires Sorted(less, w'[runs[r + 1].start..runs[r].start + runs[r].len])
    ensures RunsSorted(less, w', Merged(runs, r))
  {
    var m := Merged(runs, r);
    RunsFit(runs, end, |w|, r + 1);
    assert m[r].start + m[r].len == runs[r].start + runs[r].len;
    forall i | 0 <= i < |m| ensures RunSorted(less, w', m[i]) {
      if i != r {
        var k := if i < r then i else i + 1;
        assert m[i] == runs[k];
        RunsFit(runs, end, |w|, k);
        if k < r { RunsApart(runs, end, |w|, k, r); } else { RunsApart(runs, end, |w|, r + 1, k); }
        RunUntouched(less, w, w', runs[k]);
      }
    }
  }

  /** Two neighbouring runs that are sorted. */
  lemma RunsToMerge<T(!new)>(less: (T, T) -> bool, w: seq<T>, runs: seq<Run>, end: nat, r: nat)
    requires Tiles(runs, end, |w|) && RunsSorted(less, w, runs) && r + 1 < |runs|
    ensures 0 <= runs[r + 1].start < runs[r].start < runs[r].start + runs[r].len <= |w|
    ensures Sorted(less, w[runs[r + 1].start..runs[r].start])
    ensures Sorted(less, w[runs[r].start..runs[r].start + runs[r].len])
  {
    NeighboursFit(runs, end, |w|, r);
    assert RunSorted(less, w, runs[r]) && RunSorted(less, w, runs[r + 1]);
  }

  lemma RearrangesAlso<T(!new)>(p: bool, q: bool, less: (T, T) -> bool, a: seq<T>, b: seq<T>)
    requires q ==> p
    requires Rearranges(p, less, a, b)
    ensures Rearranges(q, less, a, b)
  {
  }

  /** Merges `runs[r]` and `runs[r + 1]`. The buffer has room for the shorter of the two. */
  method MergeRuns<T(!new)>(v: array<T>, buf: array<T>, runs: seq<Run>, r: nat, ghost end: nat,
                            cmp: Comparator<T>, ghost less: (T, T) -> bool)
    returns (ok: bool)
    requires v != buf && buf.Length == v.Length / 2
    requires Tiles(runs, end, v.Length) && r + 1 < |runs|
    requires cmp.Orders(less) ==> RunsSorted(less, v[..], runs)
    modifies v, buf, cmp
    ensures Rearranges(cmp.Orders(less), less, old(v[..]), v[..])
    ensures cmp.Orders(less) ==> ok && RunsSorted(less, v[..], Merged(runs, r))
    ensures cmp.Ended(ok, old(cmp.Panics()))
    ensures |cmp.calls| <= old(|cmp.calls|) + runs[r].len + runs[r + 1].len
  {
    var left, right := runs[r + 1], runs[r];
    NeighboursFit(runs, end, v.Length, r);
    ghost var w := v[..];
    if cmp.Orders(less) {
      RunsToMerge(less, w, runs, end, r);
    }
    ghost var ls, rs := w[left.start..right.start], w[right.start..right.start + right.len];
    ok := Merge(v, left.start, right.start, right.start + right.len, buf, cmp, less, ls, rs);
    RearrangesAlso(MergesInOrder(cmp, less, ls, rs), cmp.Orders(less), less, w, v[..]);
    if cmp.Orders(less) {
      MergeSorted(less, w, v[..], runs, end, r);
    }
  }

  /** What holds while the stack is being settled: `w` is what the slice is now, and `s` what it was. */
  ghost predicate Settling<T(!new)>(ordered: bool, less: (T, T) -> bool, s: seq<T>, w: seq<T>, runs: seq<Run>,
                                    end: nat)
  {
    && Tiles(runs, end, |w|) && LengthsDecreaseBelowTop(runs)
    && Rearranges(ordered, less, s, w) && (ordered ==> RunsSorted(less, w, runs))
  }

  /** What holds of the run loop when `[end, len)` is done: `w` is what the slice is now, and `s` what it
      was. */
  ghost predicate RunsReach<T(!new)>(ordered: bool, less: (T, T) -> bool, s: seq<T>, w: seq<T>, runs: seq<Run>,
                                     end: nat)
  {
    && Tiles(runs, end, |w|) && LengthsDecrease(runs) && Collapse(runs).None?
    && Rearranges(ordered, less, s, w) && (ordered ==> RunsSorted(less, w, runs))
  }

  lemma NothingReached<T(!new)>(ordered: bool, less: (T, T) -> bool, s: seq<T>)
    ensures RunsReach(ordered, less, s, s, [], |s|)
  {
  }

  lemma AllReached<T(!new)>(ordered: bool, less: (T, T) -> bool, s: seq<T>, w: seq<T>, runs: seq<Run>)
    requires RunsReach(ordered, less, s, w, runs, 0) && w != []
    ensures Rearranges(ordered, less, s, w) && (ordered ==> Sorted(less, w)) && runs == [Run(0, |w|)]
  {
    CollapseFinishes(runs, |w|);
    if ordered {
      assert RunSorted(less, w, runs[0]);
      assert w[0..|w|] == w;
    }
  }

  /** A settled stack is ready for the next run. */
  lemma SettledReach<T(!new)>(ordered: bool, less: (T, T) -> bool, s: seq<T>, w: seq<T>, runs: seq<Run>, end: nat)
    requires Settling(ordered, less, s, w, runs, end) && Collapse(runs).None?
    ensures RunsReach(ordered, less, s, w, runs, end)
  {
    CollapseSettles(runs);
  }

  /** A sorted run is pushed. */
  lemma PushSettling<T(!new)>(ordered: bool, less: (T, T) -> bool, s: seq<T>, w: seq<T>, w': seq<T>,
                              pending: seq<Run>, run: Run)
    requires RunsReach(ordered, less, s, w, pending, run.start + run.len) && run.len > 0
    requires Rearranges(ordered, less, w, w') && run.start + run.len <= |w|
    requires forall j :: run.start + run.len <= j < |w| ==> |w'| == |w| && w'[j] == w[j]
    requires ordered ==> RunSorted(less, w', run)
    ensures Settling(ordered, less, s, w', pending + [run], run.start)
  {
    assert |w'| == |multiset(w')| == |multiset(w)| == |w|;
    RearrangesTrans(ordered, less, s, w, w');
    PushKeeps(pending, run, |w|);
    if ordered {
      PushSorted(less, w, w', pending, run);
    }
  }

  /** One round of the inner loop. */
  method SettleOnce<T(!new)>(v: array<T>, buf: array<T>, runs: seq<Run>, ghost end: nat,
                             cmp: Comparator<T>, ghost less: (T, T) -> bool, ghost s: seq<T>)
    returns (ok: bool, merged: seq<Run>)
    requires v != buf && buf.Length == v.Length / 2 && Collapse(runs).Some?
    requires Settling(cmp.Orders(less), less, s, v[..], runs, end)
    modifies v, buf, cmp
    ensures Settling(cmp.Orders(less) && ok, less, s, v[..], merged, end) && (cmp.Orders(less) ==> ok)
    ensures merged == Merged(runs, Collapse(runs).value)
    ensures cmp.Ended(ok, old(cmp.Panics()))
    ensures |cmp.calls| - old(|cmp.calls|) + Potential(merged) + Overdraft(runs) <= Potential(runs) + Overdraft(merged)
  {
    var r := Collapse(runs).value;
    ghost var w := v[..];
    ok := MergeRuns(v, buf, runs, r, end, cmp, less);
    RearrangesTrans(cmp.Orders(less), less, s, w, v[..]);
    MergeKeeps(runs, end, v.Length);
    MergeIsPaidFor(runs);
    merged := Merged(runs, r);
  }

  /** Merges pending runs until the stack is settled. */
  method SettleRuns<T(!new)>(v: array<T>, buf: array<T>, pending: seq<Run>, ghost end: nat,
                             cmp: Comparator<T>, ghost less: (T, T) -> bool, ghost s: seq<T>)
    returns (ok: bool, runs: seq<Run>)
    requires v != buf && buf.Length == v.Length / 2
    requires Settling(cmp.Orders(less), less, s, v[..], pending, end)
    modifies v, buf, cmp
    ensures Settling(cmp.Orders(less) && ok, less, s, v[..], runs, end) && (cmp.Orders(less) ==> ok)
    ensures ok ==> RunsReach(cmp.Orders(less), less, s, v[..], runs, end)
    ensures cmp.Ended(ok, old(cmp.Panics()))
    ensures |cmp.calls| - old(|cmp.calls|) + Potential(runs) <= Potential(pending) + Overdraft(runs)
    ensures Collapse(pending).None? ==> runs == pending && |cmp.calls| == old(|cmp.calls|)
  {
    ok, runs := true, pending;
    ghost var ordered := cmp.Orders(less);
    while Collapse(runs).Some?
      invariant ok && cmp.Panics() == old(cmp.Panics()) && Settling(ordered, less, s, v[..], runs, end)
      invariant |cmp.calls| - old(|cmp.calls|) + Potential(runs) <= Potential(pending) + Overdraft(runs)
      invariant Collapse(pending).None? ==> runs == pending && |cmp.calls| == old(|cmp.calls|)
      decreases |runs|
    {
      ok, runs := SettleOnce(v, buf, runs, end, cmp, less, s);
      if !ok {
        return;
      }
    }
    SettledReach(ordered, less, s, v[..], runs, end);
  }

  lemma SortedPart<T(!new)>(less: (T, T) -> bool, w: seq<T>, i: nat)
    requires Sorted(less, w) && i <= |w|
    ensures Sorted(less, w[i..])
  {
  }

  lemma CancelFront<T>(p: seq<T>, a: seq<T>, b: seq<T>)
    requires p + a == p + b
    ensures a == b
  {
    assert (p + a)[|p|..] == a && (p + b)[|p|..] == b;
  }

  /** Sorting what is sorted, stably, changes nothing. */
  lemma SortedStays<T(!new)>(less: (T, T) -> bool, w: seq<T>, w': seq<T>, i: nat)
    requires StrictWeakOrder(less) && Sorted(less, w) && i <= |w| == |w'| && w'[..i] == w[..i]
    requires SameClasses(less, w, w') && Sorted(less, w'[i..])
    ensures w' == w
  {
    forall x ensures Class(less, x, w[i..]) == Class(less, x, w'[i..]) {
      ClassOfConcat(less, x, w[..i], w[i..]);
      ClassOfConcat(less, x, w'[..i], w'[i..]);
      assert w == w[..i] + w[i..] && w' == w'[..i] + w'[i..];
      CancelFront(Class(less, x, w[..i]), Class(less, x, w[i..]), Class(less, x, w'[i..]));
    }
    SortedPart(less, w, i);
    StableSortUnique(less, w[i..], w'[i..]);
    assert w == w[..i] + w[i..] && w' == w'[..i] + w'[i..];
  }

  /** What insertion sort has made of `s` when all that follows `i` is sorted. */
  ghost predicate SortedFrom<T(!new)>(ordered: bool, less: (T, T) -> bool, s: seq<T>, w: seq<T>, i: nat) {
    && Rearranges(ordered, less, s, w) && i <= |w|
    && (ordered ==> Sorted(less, w[i..])) && (ordered && Sorted(less, s) ==> w == s)
  }

  lemma SortedAtEnd<T(!new)>(ordered: bool, less: (T, T) -> bool, s: seq<T>)
    requires s != []
    ensures SortedFrom(ordered, less, s, s, |s| - 1)
  {
  }

  lemma SortedAtStart<T(!new)>(ordered: bool, less: (T, T) -> bool, s: seq<T>, w: seq<T>)
    requires SortedFrom(ordered, less, s, w, 0)
    ensures Rearranges(ordered, less, s, w) && (ordered ==> Sorted(less, w))
  {
    assert w[0..] == w;
  }

  /** One round of insertion sort: `v[i]` is inserted into what follows it. */
  method InsertNext<T(!new)>(v: array<T>, i: nat, cmp: Comparator<T>, ghost less: (T, T) -> bool, ghost s: seq<T>)
    returns (ok: bool)
    requires i < v.Length <= MAX_INSERTION && SortedFrom(cmp.Orders(less), less, s, v[..], i + 1)
    modifies v, cmp
    ensures cmp.Orders(less) ==> ok
    ensures if ok then SortedFrom(cmp.Orders(less), less, s, v[..], i) else Rearranges(cmp.Orders(less), less, s, v[..])
    ensures cmp.Ended(ok, old(cmp.Panics()))
    ensures |cmp.calls| <= old(|cmp.calls|) + (MAX_INSERTION - 1)
    ensures cmp.Orders(less) && Sorted(less, s) ==> |cmp.calls| <= old(|cmp.calls|) + 1
  {
    ghost var w := v[..];
    if cmp.Orders(less) && Sorted(less, w) {
      SortedPart(less, w, i);
    }
    assert w[i..] == v[i..v.Length] && w[i + 1..] == v[i + 1..v.Length];
    ok := InsertHead(v, i, v.Length, cmp, less);
    assert v[..][i..] == v[i..v.Length] && v[..][..i] == w[..i];
    if cmp.Orders(less) && Sorted(less, w) {
      SortedStays(less, w, v[..], i);
    }
    RearrangesTrans(cmp.Orders(less), less, s, w, v[..]);
  }

  /** Insertion sort, for short slices. */
  method InsertionSort<T(!new)>(v: array<T>, cmp: Comparator<T>, ghost less: (T, T) -> bool)
    returns (ok: bool)
    requires v.Length <= MAX_INSERTION
    modifies v, cmp
    ensures Rearranges(cmp.Orders(less), less, old(v[..]), v[..])
    ensures cmp.Orders(less) ==> ok && Sorted(less, v[..])
    ensures cmp.Ended(ok, old(cmp.Panics()))
    ensures |cmp.calls| <= old(|cmp.calls|) + (MAX_INSERTION - 1) * v.Length
    ensures cmp.Orders(less) && Sorted(less, old(v[..])) && v.Length > 0 ==>
              |cmp.calls| <= old(|cmp.calls|) + v.Length - 1
  {
    ok := true;
    var len := v.Length;
    ghost var s, ordered := v[..], cmp.Orders(less);
    ghost var inOrder := ordered && Sorted(less, s);
    if len >= 2 {
      var i := len - 1;
      SortedAtEnd(ordered, less, s);
      while i > 0
        invariant 0 <= i < len && ok && cmp.Panics() == old(cmp.Panics())
        invariant SortedFrom(ordered, less, s, v[..], i)
        invariant |cmp.calls| <= old(|cmp.calls|) + (MAX_INSERTION - 1) * (len - i)
        invariant inOrder ==> |cmp.calls| <= old(|cmp.calls|) + len - 1 - i
      {
        i := i - 1;
        ok := InsertNext(v, i, cmp, less, s);
        if !ok {
          return;
        }
      }
      SortedAtStart(ordered, less, s, v[..]);
    }
  }

  /** What finding, pushing and settling one more element may cost, if the stack is not higher than
      `max`. */
  function Rate(max: nat): nat { 3 * max + 9 }

  lemma PushIsPaidFor(runs: seq<Run>, run: Run, max: nat, found: int)
    requires |runs| <= max && found <= (MIN_RUN - 1) * run.len
    ensures found + Potential(runs + [run]) <= Potential(runs) + Times(Rate(max), run.len)
  {
    PotentialTop(runs, run);
    RateCovers(|runs|, max, run.len);
  }

  lemma {:induction false} RateCovers(height: nat, max: nat, len: nat)
    requires height <= max
    ensures Times(3 * height, len) + 9 * len <= Times(Rate(max), len)
  {
    if len > 0 { RateCovers(height, max, len - 1); }
  }

  /** At `rate` for each element, what the runs of `[end, len)` may cost, with those of `[start, end)`, is
      what the runs of `[start, len)` may cost. */
  lemma BudgetAdds(rate: nat, len: nat, end: nat, start: nat)
    requires start <= end <= len
    ensures Times(rate, len - end) + Times(rate, end - start) == Times(rate, len - start)
    ensures Times(rate, len - start) + len <= Times(rate + 1, len)
  {
    TimesAdds(rate, len - end, end - start);
    TimesAdds(rate, len - start, start);
    OneMore(rate, len);
  }

  lemma {:induction false} OneMore(rate: nat, len: nat)
    ensures Times(rate + 1, len) == Times(rate, len) + len
  {
    if len > 0 { OneMore(rate, len - 1); }
  }

  /** The next run is found and pushed. */
  method PushRun<T(!new)>(v: array<T>, pending: seq<Run>, end: nat, cmp: Comparator<T>, ghost less: (T, T) -> bool,
                          ghost max: nat, ghost s: seq<T>)
    returns (ok: bool, runs: seq<Run>, start: nat)
    requires 0 < end <= v.Length && |pending| <= max
    requires RunsReach(cmp.Orders(less), less, s, v[..], pending, end)
    modifies v, cmp
    ensures start < end && runs == pending + [Run(start, end - start)]
    ensures Settling(cmp.Orders(less), less, s, v[..], runs, start) && (cmp.Orders(less) ==> ok)
    ensures cmp.Ended(ok, old(cmp.Panics()))
    ensures |cmp.calls| - old(|cmp.calls|) + Potential(runs)
            <= Potential(pending) + Times(Rate(max), end - start)
    ensures cmp.Orders(less) && Sorted(less, old(v[..])[..end]) ==>
              start == 0 && |cmp.calls| <= old(|cmp.calls|) + end - 1
  {
    ghost var w := v[..];
    ok, start := NextRun(v, end, cmp, less);
    var run := Run(start, end - start);
    runs := pending + [run];
    PushIsPaidFor(pending, run, max, |cmp.calls| - old(|cmp.calls|));
    assert v[..][start..end] == v[start..end];
    PushSettling(cmp.Orders(less), less, s, w, v[..], pending, run);
  }

  /** The overdraft is never more than the slice is long. */
  lemma OverdraftFits(runs: seq<Run>, end: nat, len: nat)
    requires Tiles(runs, end, len)
    ensures Overdraft(runs) <= len
  {
    if runs != [] {
      RunsFit(runs, end, len, |runs| - 1);
    }
  }

  /** What was spent on the runs of `[end, len)` is covered. */
  ghost predicate Paid(spent: int, runs: seq<Run>, rate: nat, len: nat, end: nat)
    requires end <= len
  {
    spent + Potential(runs) <= Times(rate, len - end) + Overdraft(runs)
  }

  /** A further round is covered too. */
  lemma PaidOn(spent: int, pending: seq<Run>, more: int, runs: seq<Run>, rate: nat, len: nat, end: nat, start: nat)
    requires start < end <= len && Tiles(pending, end, len) && Collapse(pending).None?
    requires Paid(spent, pending, rate, len, end)
    requires more + Potential(runs) <= Potential(pending) + Times(rate, end - start) + Overdraft(runs)
    ensures Paid(spent + more, runs, rate, len, start)
  {
    assert Overdraft(pending) == 0;
    BudgetAdds(rate, len, end, start);
  }

  /** And so the bound is kept, even if the sort ends here. */
  lemma PaidWithinBound(spent: int, runs: seq<Run>, max: nat, len: nat, end: nat)
    requires end <= len && Tiles(runs, end, len) && Paid(spent, runs, Rate(max), len, end) && max == MaxHeight(len)
    ensures spent <= MaxComparisons(len)
  {
    OverdraftFits(runs, end, len);
    BudgetAdds(Rate(max), len, end, end);
  }

  /** A run is pushed, and the stack settled. */
  method PushAndSettle<T(!new)>(v: array<T>, buf: array<T>, pending: seq<Run>, end: nat, cmp: Comparator<T>,
                                ghost less: (T, T) -> bool, ghost max: nat, ghost s: seq<T>)
    returns (ok: bool, runs: seq<Run>, start: nat)
    requires v != buf && buf.Length == v.Length / 2 && 0 < end <= v.Length && |pending| <= max
    requires RunsReach(cmp.Orders(less), less, s, v[..], pending, end)
    modifies v, buf, cmp
    ensures start < end && (cmp.Orders(less) ==> ok)
    ensures Settling(cmp.Orders(less) && ok, less, s, v[..], runs, start)
    ensures ok ==> RunsReach(cmp.Orders(less), less, s, v[..], runs, start)
    ensures cmp.Ended(ok, old(cmp.Panics()))
    ensures |cmp.calls| - old(|cmp.calls|) + Potential(runs)
            <= Potential(pending) + Times(Rate(max), end - start) + Overdraft(runs)
    ensures cmp.Orders(less) && Sorted(less, old(v[..])[..end]) && pending == [] ==>
              start == 0 && |cmp.calls| <= old(|cmp.calls|) + end - 1
  {
    ok, runs, start := PushRun(v, pending, end, cmp, less, max, s);
    if ok {
      ok, runs := SettleRuns(v, buf, runs, start, cmp, less, s);
    }
  }

  /** One round of the outer loop. `s` is what the slice was when the sort began, and `spent` how many
      questions were asked since. */
  method AddRun<T(!new)>(v: array<T>, buf: array<T>, pending: seq<Run>, end: nat, cmp: Comparator<T>,
                         ghost less: (T, T) -> bool, ghost max: nat, ghost s: seq<T>, ghost spent: int)
    returns (ok: bool, runs: seq<Run>, start: nat)
    requires v != buf && buf.Length == v.Length / 2 && 0 < end <= v.Length && max == MaxHeight(v.Length)
    requires RunsReach(cmp.Orders(less), less, s, v[..], pending, end)
    requires Paid(spent, pending, Rate(max), v.Length, end)
    modifies v, buf, cmp
    ensures start < end && Rearranges(cmp.Orders(less), less, s, v[..]) && (cmp.Orders(less) ==> ok)
    ensures ok ==> RunsReach(cmp.Orders(less), less, s, v[..], runs, start)
    ensures cmp.Ended(ok, old(cmp.Panics()))
    ensures Paid(spent + |cmp.calls| - old(|cmp.calls|), runs, Rate(max), v.Length, start)
    ensures spent + |cmp.calls| - old(|cmp.calls|) <= MaxComparisons(v.Length)
    ensures cmp.Orders(less) && Sorted(less, old(v[..])[..end]) && pending == [] ==>
              start == 0 && |cmp.calls| <= old(|cmp.calls|) + end - 1
  {
    HeightIsLogarithmic(pending, end, v.Length);
    ok, runs, start := PushAndSettle(v, buf, pending, end, cmp, less, max, s);
    PaidOn(spent, pending, |cmp.calls| - old(|cmp.calls|), runs, Rate(max), v.Length, end, start);
    PaidWithinBound(spent + |cmp.calls| - old(|cmp.calls|), runs, max, v.Length, start);
  }

  /** The run loop, for slices long enough to need a buffer. */
  method RunSort<T(!new)>(v: array<T>, cmp: Comparator<T>, ghost less: (T, T) -> bool)
    returns (ok: bool, runs: seq<Run>)
    requires v.Length > MAX_INSERTION
    modifies v, cmp
    ensures Rearranges(cmp.Orders(less), less, old(v[..]), v[..])
    ensures cmp.Orders(less) ==> ok && Sorted(less, v[..])
    ensures ok ==> runs == [Run(0, v.Length)]
    ensures cmp.Ended(ok, old(cmp.Panics()))
    ensures |cmp.calls| <= old(|cmp.calls|) + MaxComparisons(v.Length)
    ensures cmp.Orders(less) && Sorted(less, old(v[..])) ==> |cmp.calls| <= old(|cmp.calls|) + v.Length - 1
  {
    var len := v.Length;
    var filler := v[0];
    var buf := new T[len / 2](_ => filler);
    runs := [];
    ok := true;
    var end: nat := len;
    ghost var s, ordered := v[..], cmp.Orders(less);
    ghost var inOrder, max := ordered && Sorted(less, s), MaxHeight(len);
    assert s[..len] == s;
    NothingReached(ordered, less, s);
    while end > 0
      invariant end == len ==> runs == [] && v[..] == s && cmp.calls == old(cmp.calls)
      invariant inOrder && end < len ==> end == 0 && |cmp.calls| <= old(|cmp.calls|) + len - 1
      invariant end <= len && ok && cmp.Panics() == old(cmp.Panics())
      invariant RunsReach(ordered, less, s, v[..], runs, end)
      invariant Paid(|cmp.calls| - old(|cmp.calls|), runs, Rate(max), len, end)
      invariant |cmp.calls| <= old(|cmp.calls|) + MaxComparisons(len)
    {
      ok, runs, end := AddRun(v, buf, runs, end, cmp, less, max, s, |cmp.calls| - old(|cmp.calls|));
      if !ok {
        return;
      }
    }
    AllReached(ordered, less, s, v[..], runs);
  }

  /** `merge_sort`. It stops for any comparator, within `MaxComparisons` questions; whether it ends
      by itself or by a panic of the comparator, no element is lost or duplicated; and if the
      comparator answers by a strict weak order, it ends with the stable sort of the slice. */
  method MergeSort<T(!new)>(v: array<T>, elemSize: nat, cmp: Comparator<T>, ghost less: (T, T) -> bool)
    returns (ok: bool)
    modifies v, cmp
    ensures multiset(v[..]) == multiset(old(v[..]))
    ensures cmp.Orders(less) ==> ok
    ensures cmp.Orders(less) && elemSize > 0 ==> StableSortOf(less, old(v[..]), v[..])
    ensures elemSize == 0 ==> ok && v[..] == old(v[..])
    ensures cmp.Ended(ok, old(cmp.Panics()))
    ensures |cmp.calls| <= old(|cmp.calls|) + MaxComparisons(v.Length)
    ensures elemSize == 0 ==> cmp.calls == old(cmp.calls)
    ensures cmp.Orders(less) && Sorted(less, old(v[..])) && v.Length > 0 ==>
              |cmp.calls| <= old(|cmp.calls|) + v.Length - 1
  {
    if elemSize == 0 {
      return true;
    }
    if v.Length <= MAX_INSERTION {
      ok := InsertionSort(v, cmp, less);
      ShortSlices(v.Length);
    } else {
      var runs;
      ok, runs := RunSort(v, cmp, less);
    }
  }

  lemma SomeBits(n: nat)
    requires n >= 2
    ensures Log2(n) >= 1
  {
  }

  lemma ShortSlices(len: nat)
    ensures (MAX_INSERTION - 1) * len <= MaxComparisons(len)
  {
    if len > 0 {
      SomeBits(len + 1);
      RateIsEnough(3 * MaxHeight(len) + 10, len);
    }
  }

  lemma RateIsEnough(rate: nat, len: nat)
    requires rate >= MAX_INSERTION - 1
    ensures (MAX_INSERTION - 1) * len <= Times(rate, len)
  {
    TimesMonotone(MAX_INSERTION - 1, rate, len);
    TimesIs(MAX_INSERTION - 1, len);
  }
}

/** How `merge_sort` finds its runs: it scans backwards for a run that is already in order or in
    strictly descending order, and extends a short one by insertion. */
module NaturalRuns {
  import opened StableOrder
  import opened Comparators
  import opened Insertion

  /** The length below which insertion goes on extending a run. */
  const MIN_RUN := 10

  ghost function Reversed<T>(s: seq<T>): (r: seq<T>)
    ensures |r| == |s|
  {
    if s == [] then [] else Reversed(s[1..]) + [s[0]]
  }

  lemma {:induction false} ReversedAt<T>(s: seq<T>, k: nat)
    requires k < |s|
    ensures Reversed(s)[k] == s[|s| - 1 - k]
  {
    if k < |s| - 1 { ReversedAt(s[1..], k); }
  }

  /** `v[lo..hi].reverse()` */
  method Reverse<T>(v: array<T>, lo: nat, hi: nat)
    requires lo <= hi <= v.Length
    modifies v
    ensures forall j :: 0 <= j < lo ==> v[j] == old(v[j])
    ensures forall j :: hi <= j < v.Length ==> v[j] == old(v[j])
    ensures v[lo..hi] == Reversed(old(v[lo..hi]))
  {
    ghost var w := v[..];
    var i, j := lo, hi;
    while i + 1 < j
      invariant lo <= i <= j <= hi && i - lo == hi - j
      invariant forall k :: lo <= k < i ==> v[k] == w[lo + hi - 1 - k]
      invariant forall k :: j <= k < hi ==> v[k] == w[lo + hi - 1 - k]
      invariant forall k :: i <= k < j ==> v[k] == w[k]
      invariant forall k :: 0 <= k < lo ==> v[k] == w[k]
      invariant forall k :: hi <= k < v.Length ==> v[k] == w[k]
    {
      v[i], v[j - 1] := v[j - 1], v[i];
      i, j := i + 1, j - 1;
    }
    assert forall k :: lo <= k < hi ==> v[k] == w[lo + hi - 1 - k];
    MirroredIsReversed(v[lo..hi], w[lo..hi]);
  }

  lemma MirroredIsReversed<T>(r: seq<T>, s: seq<T>)
    requires |r| == |s| && forall k :: 0 <= k < |r| ==> r[k] == s[|s| - 1 - k]
    ensures r == Reversed(s)
  {
    forall k | 0 <= k < |r| ensures r[k] == Reversed(s)[k] {
      ReversedAt(s, k);
    }
  }

  /** Every element is less than all those before it. */
  ghost predicate StrictlyDescending<T>(less: (T, T) -> bool, s: seq<T>) {
    forall i, j :: 0 <= i < j < |s| ==> less(s[j], s[i])
  }

  /** In a strictly descending run no two elements are equivalent, so reversing it is stable. */
  lemma {:induction false} ReversedInOrder<T(!new)>(ordered: bool, less: (T, T) -> bool, s: seq<T>)
    requires ordered ==> StrictWeakOrder(less) && StrictlyDescending(less, s)
    ensures Rearranges(ordered, less, s, Reversed(s))
    ensures ordered ==> Sorted(less, Reversed(s))
  {
    if s != [] {
      var x, t := s[0], s[1..];
      ReversedInOrder(ordered, less, t);
      assert s == [x] + t;
      MoveAcross(ordered, less, x, t);
      RearrangesConcat(ordered, less, t, Reversed(t), [x], [x]);
      if ordered {
        forall i | 0 <= i < |t| ensures !less(x, Reversed(t)[i]) {
          ReversedAt(t, i);
        }
      }
    }
  }

  lemma {:induction false} AdjacentDescending<T(!new)>(less: (T, T) -> bool, s: seq<T>)
    requires StrictWeakOrder(less) && forall i :: 0 <= i < |s| - 1 ==> less(s[i + 1], s[i])
    ensures StrictlyDescending(less, s)
  {
    if |s| > 1 {
      AdjacentDescending(less, s[1..]);
      assert less(s[0 + 1], s[0]);
      forall i, j | 0 <= i < j < |s| ensures less(s[j], s[i]) {
        var t := s[1..];
        if i > 0 {
          assert less(t[j - 1], t[i - 1]);
        } else if j > 1 {
          assert less(t[j - 1], t[0]);
        }
      }
    }
  }

  lemma {:induction false} AdjacentSorted<T(!new)>(less: (T, T) -> bool, s: seq<T>)
    requires StrictWeakOrder(less) && forall i :: 0 <= i < |s| - 1 ==> !less(s[i + 1], s[i])
    ensures Sorted(less, s)
  {
    if |s| > 1 {
      AdjacentSorted(less, s[1..]);
      assert !less(s[0 + 1], s[0]);
      forall i, j | 0 <= i < j < |s| ensures !less(s[j], s[i]) {
        var t := s[1..];
        if i > 0 {
          assert !less(t[j - 1], t[i - 1]);
        } else if j > 1 {
          assert !less(t[j - 1], t[0]);
        }
      }
    }
  }

  /** Scans backwards from `end` as long as the comparator gives the same answer about neighbours. */
  method ScanRun<T(!new)>(v: array<T>, end: nat, cmp: Comparator<T>)
    returns (ok: bool, start: nat, a: Answer)
    requires 0 < end <= v.Length
    modifies cmp
    ensures start < end && (ok ==> a != Panic)
    ensures ok ==> forall i :: start <= i < end - 1 ==> cmp.CanSay(v[i + 1], v[i], a)
    ensures cmp.Ended(ok, old(cmp.Panics()))
    ensures |cmp.calls| <= old(|cmp.calls|) + end - start
    ensures ok && start > 0 ==> cmp.CanSay(v[start], v[start - 1], if a == Yes then No else Yes)
    ensures ok && start == 0 ==> |cmp.calls| == old(|cmp.calls|) + end - 1
    ensures start == end - 1 ==> a == No
  {
    ok, a, start := true, No, end - 1;
    if start > 0 {
      start := start - 1;
      a := cmp.IsLess(v[start + 1], v[start]);
      assert cmp.CanSay(v[start + 1], v[start], a);
      if a == Panic {
        return false, start, a;
      }
      while start > 0
        invariant start < end - 1 && a != Panic && ok
        invariant forall i :: start <= i < end - 1 ==> cmp.CanSay(v[i + 1], v[i], a)
        invariant |cmp.calls| == old(|cmp.calls|) + end - start - 1 && cmp.Panics() == old(cmp.Panics())
      {
        var b := cmp.IsLess(v[start], v[start - 1]);
        assert cmp.CanSay(v[start - 1 + 1], v[start - 1], b);
        if b == Panic {
          return false, start, a;
        }
        if b != a {
          assert cmp.CanSay(v[start], v[start - 1], if a == Yes then No else Yes);
          break;
        }
        start := start - 1;
      }
    }
  }

  lemma ScannedInOrder<T(!new)>(cmp: Comparator<T>, less: (T, T) -> bool, s: seq<T>, a: Answer)
    requires a != Panic && forall i :: 0 <= i < |s| - 1 ==> cmp.CanSay(s[i + 1], s[i], a)
    ensures cmp.Orders(less) && a == No ==> Sorted(less, s)
    ensures cmp.Orders(less) && a == Yes ==> StrictlyDescending(less, s)
  {
    if cmp.Orders(less) {
      if a == No { AdjacentSorted(less, s); } else { AdjacentDescending(less, s); }
    }
  }

  /** The run found cannot be extended by the element before it. */
  ghost predicate Maximal<T(!new)>(less: (T, T) -> bool, w: seq<T>, start: nat, end: nat) {
    && 0 < start < end <= |w|
    && if less(w[start], w[start - 1]) then Sorted(less, w[start..end]) else StrictlyDescending(less, w[start..end])
  }

  lemma ScanSays<T(!new)>(cmp: Comparator<T>, less: (T, T) -> bool, w: seq<T>, start: nat, end: nat, a: Answer)
    requires cmp.Orders(less) && start < end <= |w| && a != Panic
    requires forall i :: start <= i < end - 1 ==> cmp.CanSay(w[i + 1], w[i], a)
    requires start > 0 ==> cmp.CanSay(w[start], w[start - 1], if a == Yes then No else Yes)
    ensures start < end - 1 && a == Yes ==> less(w[start + 1], w[start])
    ensures start > 0 && a == No ==> less(w[start], w[start - 1])
  {
    assert start < end - 1 ==> cmp.CanSay(w[start + 1], w[start], a);
  }

  lemma SortedNeighbours<T(!new)>(less: (T, T) -> bool, w: seq<T>, end: nat, i: nat)
    requires end <= |w| && Sorted(less, w[..end]) && 0 < i < end
    ensures !less(w[i], w[i - 1])
  {
    assert w[..end][i] == w[i] && w[..end][i - 1] == w[i - 1];
  }

  /** In a sorted slice the scan gets to the beginning, and does not find a descending run. */
  lemma SortedIsScanned<T(!new)>(cmp: Comparator<T>, less: (T, T) -> bool, w: seq<T>, start: nat, end: nat, a: Answer)
    requires cmp.Orders(less) && start < end <= |w| && Sorted(less, w[..end]) && a != Panic
    requires forall i :: start <= i < end - 1 ==> cmp.CanSay(w[i + 1], w[i], a)
    requires start > 0 ==> cmp.CanSay(w[start], w[start - 1], if a == Yes then No else Yes)
    requires start == end - 1 ==> a == No
    ensures start == 0 && a == No
  {
    if start + 1 < end { SortedNeighbours(less, w, end, start + 1); }
    if start > 0 { SortedNeighbours(less, w, end, start); }
    ScanSays(cmp, less, w, start, end, a);
  }

  /** Finds the natural run that ends at `end`, and reverses it if it is strictly descending. */
  method NaturalRun<T(!new)>(v: array<T>, end: nat, cmp: Comparator<T>, ghost less: (T, T) -> bool)
    returns (ok: bool, start: nat)
    requires 0 < end <= v.Length
    modifies v, cmp
    ensures start < end
    ensures forall j :: 0 <= j < start ==> v[j] == old(v[j])
    ensures forall j :: end <= j < v.Length ==> v[j] == old(v[j])
    ensures Rearranges(cmp.Orders(less), less, old(v[..]), v[..])
    ensures cmp.Orders(less) ==> ok && Sorted(less, v[start..end])
    ensures cmp.Ended(ok, old(cmp.Panics()))
    ensures |cmp.calls| <= old(|cmp.calls|) + end - start
    ensures cmp.Orders(less) && start > 0 ==> Maximal(less, old(v[..]), start, end)
    ensures cmp.Orders(less) && Sorted(less, old(v[..])[..end]) ==>
              start == 0 && |cmp.calls| == old(|cmp.calls|) + end - 1
  {
    var a;
    ok, start, a := ScanRun(v, end, cmp);
    cmp.OrdersWithoutPanic(less);
    if ok {
      ghost var w, s := v[..], v[start..end];
      if cmp.Orders(less) && Sorted(less, w[..end]) {
        SortedIsScanned(cmp, less, w, start, end, a);
      }
      assert w[start..end] == s;
      forall i | 0 <= i < |s| - 1 ensures cmp.CanSay(s[i + 1], s[i], a) {
        assert cmp.CanSay(v[start + i + 1], v[start + i], a);
      }
      ScannedInOrder(cmp, less, s, a);
      if a == Yes {
        Reverse(v, start, end);
        ReversedInOrder(cmp.Orders(less), less, s);
        RearrangesPart(cmp.Orders(less), less, old(v[..]), v[..], start, end);
      }
    }
  }

  /** Inserts more elements into the run `v[first..end]` if it is too short. */
  method ExtendRun<T(!new)>(v: array<T>, first: nat, end: nat, cmp: Comparator<T>,
                            ghost less: (T, T) -> bool)
    returns (ok: bool, start: nat)
    requires first < end <= v.Length
    modifies v, cmp
    ensures start <= first && (ok ==> start == 0 || end - start >= 10)
    ensures forall j :: 0 <= j < start ==> v[j] == old(v[j])
    ensures forall j :: end <= j < v.Length ==> v[j] == old(v[j])
    ensures Rearranges(cmp.Orders(less), less, old(v[..]), v[..])
    ensures cmp.Orders(less) ==> ok
    ensures cmp.Orders(less) && Sorted(less, old(v[first..end])) ==> Sorted(less, v[start..end])
    ensures cmp.Ended(ok, old(cmp.Panics()))
    ensures |cmp.calls| <= old(|cmp.calls|) + (MIN_RUN - 1) * (first - start)
  {
    ok, start := true, first;
    ghost var ordered := cmp.Orders(less);
    while start > 0 && end - start < MIN_RUN
      invariant start <= first && ok && cmp.Panics() == old(cmp.Panics())
      invariant forall j :: 0 <= j < start ==> v[j] == old(v[j])
      invariant forall j :: end <= j < v.Length ==> v[j] == old(v[j])
      invariant Rearranges(ordered, less, old(v[..]), v[..])
      invariant ordered && Sorted(less, old(v[first..end])) ==> Sorted(less, v[start..end])
      invariant |cmp.calls| <= old(|cmp.calls|) + (MIN_RUN - 1) * (first - start)
    {
      ghost var w := v[..];
      start := start - 1;
      ok := InsertHead(v, start, end, cmp, less);
      RearrangesTrans(ordered, less, old(v[..]), w, v[..]);
      if !ok {
        return;
      }
    }
  }

  /** The next run, ready to be pushed: sorted, and of a decent length unless it begins the slice. */
  method NextRun<T(!new)>(v: array<T>, end: nat, cmp: Comparator<T>, ghost less: (T, T) -> bool)
    returns (ok: bool, start: nat)
    requires 0 < end <= v.Length
    modifies v, cmp
    ensures start < end && (ok ==> start == 0 || end - start >= 10)
    ensures forall j :: 0 <= j < start ==> v[j] == old(v[j])
    ensures forall j :: end <= j < v.Length ==> v[j] == old(v[j])
    ensures Rearranges(cmp.Orders(less), less, old(v[..]), v[..])
    ensures cmp.Orders(less) ==> ok && Sorted(less, v[start..end])
    ensures cmp.Ended(ok, old(cmp.Panics()))
    ensures |cmp.calls| <= old(|cmp.calls|) + (MIN_RUN - 1) * (end - start)
    ensures cmp.Orders(less) && Sorted(less, old(v[..])[..end]) ==>
              start == 0 && |cmp.calls| <= old(|cmp.calls|) + end - 1
  {
    var first;
    ok, first := NaturalRun(v, end, cmp, less);
    if !ok {
      return ok, first;
    }
    ghost var w := v[..];
    ok, start := ExtendRun(v, first, end, cmp, less);
    RearrangesTrans(cmp.Orders(less), less, old(v[..]), w, v[..]);
  }
}

/** `insert_head`: one step of insertion sort, in place and safe against a panicking comparator.

    Here and in the other sorting modules, every method takes an arbitrary comparator, and its
    result `ok` is false when the comparator panicked; the guards of the source (`InsertionHole`,
    `MergeHole`) have then been dropped. The ghost argument `less` is any order the caller has in
    mind: what is promised about it holds whenever the comparator answers by it. */
module Insertion {
  import opened StableOrder
  import opened Comparators

  lemma InsertedSorted<T(!new)>(less: (T, T) -> bool, s: seq<T>, x: T, t: seq<T>)
    requires StrictWeakOrder(less) && Sorted(less, s + t)
    requires forall i :: 0 <= i < |s| ==> less(s[i], x)
    requires t != [] ==> !less(t[0], x)
    ensures Sorted(less, s + [x] + t)
  {
    var r := s + [x] + t;
    var st := s + t;
    assert forall i :: 0 <= i < |s| ==> st[i] == s[i];
    assert forall i :: 0 <= i < |t| ==> st[|s| + i] == t[i];
    forall j | 0 <= j < |t| ensures !less(t[j], x) {
      assert j > 0 ==> !less(st[|s| + j], st[|s|]);
    }
    forall i, j | 0 <= i < j < |r| ensures !less(r[j], r[i]) {
      if j < |s| {
        assert r[i] == st[i] && r[j] == st[j];
      } else if j > |s| {
        assert r[j] == st[j - 1] == t[j - |s| - 1];
        if i < |s| { assert r[i] == st[i]; }
        if i > |s| { assert r[i] == st[i - 1]; }
      }
    }
  }

  /** `s` with its head moved `k` places up. */
  ghost function HeadMoved<T>(s: seq<T>, k: nat): seq<T>
    requires k < |s|
  {
    s[1..k + 1] + [s[0]] + s[k + 1..]
  }

  lemma HeadMovedAt<T>(s: seq<T>, k: nat, t: seq<T>)
    requires k < |s| == |t| && t[k] == s[0]
    requires forall i :: 0 <= i < k ==> t[i] == s[i + 1]
    requires forall i :: k < i < |s| ==> t[i] == s[i]
    ensures t == HeadMoved(s, k)
  {
  }

  /** Moving the head past elements less than it rearranges the sequence, and sorts it if the
      rest was sorted and the head moved far enough. */
  lemma HeadMovedInOrder<T(!new)>(ordered: bool, less: (T, T) -> bool, s: seq<T>, k: nat)
    requires k < |s|
    requires ordered ==> StrictWeakOrder(less) && forall j :: 1 <= j <= k ==> less(s[j], s[0])
    requires ordered && k + 1 < |s| ==> !less(s[k + 1], s[0])
    ensures Rearranges(ordered, less, s, HeadMoved(s, k))
    ensures ordered && Sorted(less, s[1..]) ==> Sorted(less, HeadMoved(s, k))
  {
    var x, p, t := s[0], s[1..k + 1], s[k + 1..];
    MoveAcross(ordered, less, x, p);
    RearrangesConcat(ordered, less, [x] + p, p + [x], t, t);
    assert s == [x] + p + t && s[1..] == p + t;
    if ordered && Sorted(less, s[1..]) {
      InsertedSorted(less, p, x, t);
    }
  }

  /** Where the parts are while the head `s[0]` is in the air: `v[dest]` is the hole. */
  ghost predicate HoleAt<T(!new)>(v: array<T>, lo: nat, hi: nat, dest: nat, s: seq<T>)
    reads v
  {
    && lo <= dest < hi <= v.Length && |s| == hi - lo
    && (forall j :: lo <= j < dest ==> v[j] == s[j + 1 - lo])
    && (forall j :: dest < j < hi ==> v[j] == s[j - lo])
  }

  /** The loop of `insert_head`: the hole moves up past the elements that the comparator puts before
      `tmp`. */
  method ShiftLoop<T(!new)>(v: array<T>, lo: nat, hi: nat, tmp: T, cmp: Comparator<T>, ghost s: seq<T>)
    returns (ok: bool, dest: nat)
    requires lo + 2 <= hi && HoleAt(v, lo, hi, lo + 1, s) && tmp == s[0] && cmp.CanSay(s[1], s[0], Yes)
    modifies v, cmp
    ensures lo < dest && HoleAt(v, lo, hi, dest, s)
    ensures forall j :: 0 <= j < lo || hi <= j < v.Length ==> v[j] == old(v[j])
    ensures forall j :: 1 <= j <= dest - lo ==> cmp.CanSay(s[j], s[0], Yes)
    ensures ok && dest + 1 < hi ==> cmp.CanSay(s[dest + 1 - lo], s[0], No)
    ensures cmp.Ended(ok, old(cmp.Panics()))
    ensures |cmp.calls| <= old(|cmp.calls|) + hi - lo - 2
  {
    ok, dest := true, lo + 1;
    var i := lo + 2;
    while i < hi
      invariant lo + 2 <= i <= hi && dest == i - 1 && ok && HoleAt(v, lo, hi, dest, s)
      invariant forall j :: 0 <= j < lo || hi <= j < v.Length ==> v[j] == old(v[j])
      invariant forall j :: 1 <= j <= dest - lo ==> cmp.CanSay(s[j], s[0], Yes)
      invariant |cmp.calls| == old(|cmp.calls|) + i - lo - 2 && cmp.Panics() == old(cmp.Panics())
    {
      var b := cmp.IsLess(v[i], tmp);
      if b != Yes {
        ok := b == No;
        break;
      }
      v[i - 1] := v[i];
      dest := i;
      i := i + 1;
    }
  }

  /** The head of `s`, which is in `v[lo..hi]`, moves up past the elements that the comparator puts
      before it. */
  method ShiftHead<T(!new)>(v: array<T>, lo: nat, hi: nat, cmp: Comparator<T>, ghost s: seq<T>)
    returns (ok: bool, ghost k: nat)
    requires lo < hi <= v.Length && s == v[lo..hi]
    modifies v, cmp
    ensures forall j :: 0 <= j < lo || hi <= j < v.Length ==> v[j] == old(v[j])
    ensures k < |s| && HoleAt(v, lo, hi, lo + k, s) && v[lo + k] == s[0]
    ensures forall j :: 1 <= j <= k ==> cmp.CanSay(s[j], s[0], Yes)
    ensures ok && k + 1 < |s| ==> cmp.CanSay(s[k + 1], s[0], No)
    ensures cmp.Ended(ok, old(cmp.Panics()))
    ensures |cmp.calls| <= old(|cmp.calls|) + hi - lo - 1
    ensures k == 0 ==> |cmp.calls| <= old(|cmp.calls|) + 1
  {
    k := 0;
    if hi - lo < 2 {
      return true, 0;
    }
    var a := cmp.IsLess(v[lo + 1], v[lo]);
    if a != Yes {
      return a == No, 0;
    }
    var tmp := v[lo];
    v[lo] := v[lo + 1];
    var dest;
    ok, dest := ShiftLoop(v, lo, hi, tmp, cmp, s);
    // The hole is dropped.
    v[dest] := tmp;
    k := dest - lo;
  }

  lemma MovedPastLess<T(!new)>(cmp: Comparator<T>, less: (T, T) -> bool, s: seq<T>, k: nat)
    requires cmp.Orders(less) && k < |s|
    requires forall j :: 1 <= j <= k ==> cmp.CanSay(s[j], s[0], Yes)
    ensures k > 0 ==> less(s[1], s[0])
  {
  }

  /** In a sorted slice the head does not move. */
  lemma HeadStays<T(!new)>(cmp: Comparator<T>, less: (T, T) -> bool, s: seq<T>, k: nat)
    requires cmp.Orders(less) && Sorted(less, s) && k < |s|
    requires forall j :: 1 <= j <= k ==> cmp.CanSay(s[j], s[0], Yes)
    ensures k == 0
  {
    MovedPastLess(cmp, less, s, k);
  }

  /** Inserts `v[lo]` into the sorted `v[lo + 1..hi]`. An empty slice stays as it is. */
  method InsertHead<T(!new)>(v: array<T>, lo: nat, hi: nat, cmp: Comparator<T>,
                             ghost less: (T, T) -> bool)
    returns (ok: bool)
    requires lo <= hi <= v.Length
    modifies v, cmp
    ensures forall j :: 0 <= j < lo ==> v[j] == old(v[j])
    ensures forall j :: hi <= j < v.Length ==> v[j] == old(v[j])
    ensures Rearranges(cmp.Orders(less), less, old(v[..]), v[..])
    ensures cmp.Orders(less) ==> ok
    ensures cmp.Orders(less) && lo < hi && Sorted(less, old(v[lo + 1..hi])) ==> Sorted(less, v[lo..hi])
    ensures cmp.Ended(ok, old(cmp.Panics()))
    ensures |cmp.calls| <= old(|cmp.calls|) + if lo < hi then hi - lo - 1 else 0
    ensures cmp.Orders(less) && Sorted(less, old(v[lo..hi])) ==> |cmp.calls| <= old(|cmp.calls|) + 1
  {
    if lo == hi {
      return true;
    }
    ghost var s := v[lo..hi];
    assert v[lo + 1..hi] == s[1..];
    ghost var k;
    ok, k := ShiftHead(v, lo, hi, cmp, s);
    cmp.OrdersWithoutPanic(less);
    if cmp.Orders(less) && Sorted(less, s) {
      HeadStays(cmp, less, s, k);
    }
    HeadMovedAt(s, k, v[lo..hi]);
    HeadMovedInOrder(cmp.Orders(less), less, s, k);
    RearrangesPart(cmp.Orders(less), less, old(v[..]), v[..], lo, hi);
  }
}

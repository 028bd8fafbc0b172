/** `merge`: two neighbouring runs are merged through a buffer that holds the shorter one. */
module TwoWayMerge {
  import opened StableOrder
  import opened Comparators

  // ---- merge, when the left run is the shorter one ----

  /** `done` comes before `left` and `right`, and all three are sorted. */
  ghost predicate ForwardOrder<T(!new)>(less: (T, T) -> bool, done: seq<T>, left: seq<T>, right: seq<T>) {
    && Sorted(less, done) && Sorted(less, left) && Sorted(less, right)
    && Below(less, done, left) && Below(less, done, right)
  }

  /** The state of a forward merge: `done` has been written, `left` is still in the buffer and
      `right` still in place. `done + left + right` is what `v` holds once the hole is dropped. */
  ghost predicate ForwardState<T(!new)>(ordered: bool, less: (T, T) -> bool, s: seq<T>,
                                        done: seq<T>, left: seq<T>, right: seq<T>)
  {
    && Rearranges(ordered, less, s, done + left + right)
    && (ordered ==> ForwardOrder(less, done, left, right))
  }

  /** The two runs are sorted, as the comparator sees it. */
  ghost predicate MergesInOrder<T(!new)>(cmp: Comparator<T>, less: (T, T) -> bool, l: seq<T>, r: seq<T>) {
    cmp.Orders(less) && Sorted(less, l) && Sorted(less, r)
  }

  /** `x` is not after anything in `s`. */
  ghost predicate AtMost<T>(less: (T, T) -> bool, x: T, s: seq<T>) {
    forall i :: 0 <= i < |s| ==> !less(s[i], x)
  }

  lemma HeadAtMost<T(!new)>(less: (T, T) -> bool, x: T, s: seq<T>)
    requires StrictWeakOrder(less) && Sorted(less, s) && s != [] && !less(s[0], x)
    ensures AtMost(less, x, s)
  {
    forall i | 0 <= i < |s| ensures !less(s[i], x) {
      assert i > 0 ==> !less(s[i], s[0]);
    }
  }

  lemma HeadLess<T(!new)>(less: (T, T) -> bool, x: T, s: seq<T>)
    requires StrictWeakOrder(less) && Sorted(less, s) && s != [] && less(x, s[0])
    ensures forall y :: y in s ==> less(x, y) && !less(y, x)
  {
    forall i | 0 <= i < |s| ensures less(x, s[i]) && !less(s[i], x) {
      assert i > 0 ==> !less(s[i], s[0]);
    }
  }

  /** The next element written is one that comes before all that is left. */
  lemma ForwardStep<T(!new)>(less: (T, T) -> bool, done: seq<T>, left: seq<T>, right: seq<T>, x: T,
                             left': seq<T>, right': seq<T>)
    requires ForwardOrder(less, done, left, right)
    requires (left' == left && [x] + right' == right) || ([x] + left' == left && right' == right)
    requires AtMost(less, x, left') && AtMost(less, x, right')
    ensures ForwardOrder(less, done + [x], left', right')
  {
    if left' == left {
      assert right[0] == x && right[1..] == right';
    } else {
      assert left[0] == x && left[1..] == left';
    }
  }

  lemma Regroup<T>(a: seq<T>, b: seq<T>, c: seq<T>, d: seq<T>)
    ensures a + (b + c) + d == a + b + (c + d)
    ensures a + (b + c) + d == a + b + c + d
  {
  }

  lemma TakeRight<T(!new)>(ordered: bool, less: (T, T) -> bool, s: seq<T>,
                           done: seq<T>, left: seq<T>, right: seq<T>)
    requires ordered ==> StrictWeakOrder(less)
    requires ForwardState(ordered, less, s, done, left, right) && left != [] && right != []
    requires ordered ==> less(right[0], left[0])
    ensures ForwardState(ordered, less, s, done + [right[0]], left, right[1..])
  {
    var r := right[0];
    if ordered {
      HeadLess(less, r, left);
      HeadAtMost(less, r, right);
      assert AtMost(less, r, right[1..]);
      ForwardStep(less, done, left, right, r, left, right[1..]);
    }
    MoveAcross(ordered, less, r, left);
    RearrangesWithin(ordered, less, done, left + [r], [r] + left, right[1..]);
    Regroup(done, left, [r], right[1..]);
    Regroup(done, [r], left, right[1..]);
    assert [r] + right[1..] == right;
  }

  lemma TakeLeft<T(!new)>(ordered: bool, less: (T, T) -> bool, s: seq<T>,
                          done: seq<T>, left: seq<T>, right: seq<T>)
    requires ordered ==> StrictWeakOrder(less)
    requires ForwardState(ordered, less, s, done, left, right) && left != [] && right != []
    requires ordered ==> !less(right[0], left[0])
    ensures ForwardState(ordered, less, s, done + [left[0]], left[1..], right)
  {
    var l := left[0];
    assert done + [l] + left[1..] + right == done + left + right;
    if ordered {
      HeadAtMost(less, l, right);
      HeadAtMost(less, l, left);
      assert AtMost(less, l, left[1..]);
      ForwardStep(less, done, left, right, l, left[1..], right);
    }
  }

  /** `ptr::copy_nonoverlapping` between the slice and the buffer. */
  method CopyNonoverlapping<T>(src: array<T>, from: nat, dst: array<T>, to: nat, n: nat)
    requires src != dst && from + n <= src.Length && to + n <= dst.Length
    modifies dst
    ensures forall i :: to <= i < to + n ==> dst[i] == src[i - to + from]
    ensures forall i :: 0 <= i < to ==> dst[i] == old(dst[i])
    ensures forall i :: to + n <= i < dst.Length ==> dst[i] == old(dst[i])
  {
    forall i | to <= i < to + n {
      dst[i] := src[i - to + from];
    }
  }

  lemma InThreeParts<T>(s: seq<T>, a: seq<T>, b: seq<T>, c: seq<T>)
    requires |s| == |a| + |b| + |c|
    requires forall i :: 0 <= i < |a| ==> s[i] == a[i]
    requires forall i :: |a| <= i < |a| + |b| ==> s[i] == b[i - |a|]
    requires forall i :: |a| + |b| <= i < |s| ==> s[i] == c[i - (|a| + |b|)]
    ensures s == a + b + c
  {
  }

  /** The hole is dropped: the `b` that the buffer still holds goes between the `a` and the `c` of `v[lo..hi]`. */
  method DropHole<T>(v: array<T>, lo: nat, hi: nat, buf: array<T>, from: nat, ghost a: seq<T>, ghost b: seq<T>,
                     ghost c: seq<T>, at: nat, n: nat)
    requires lo <= hi <= v.Length && from + n <= buf.Length && v != buf
    requires at == lo + |a| && n == |b| && hi == at + n + |c|
    requires forall j :: lo <= j < at ==> v[j] == a[j - lo]
    requires forall j :: from <= j < from + n ==> buf[j] == b[j - from]
    requires forall j :: at + n <= j < hi ==> v[j] == c[j - (at + n)]
    modifies v
    ensures v[lo..hi] == a + b + c
    ensures forall j :: 0 <= j < lo ==> v[j] == old(v[j])
    ensures forall j :: hi <= j < v.Length ==> v[j] == old(v[j])
  {
    CopyNonoverlapping(buf, from, v, at, n);
    InThreeParts(v[lo..hi], a, b, c);
  }

  /** A merge under way. What is written is `done`; `left` and `right` are still to be consumed. */
  datatype Merging<T> = Merging(done: seq<T>, left: seq<T>, right: seq<T>)

  /** One round of the forward loop, with the answer that the comparator gave. */
  ghost predicate ForwardRound<T(!new)>(cmp: Comparator<T>, a: Merging<T>, b: Merging<T>) {
    && a.left != [] && a.right != []
    && ((cmp.CanSay(a.right[0], a.left[0], Yes) &&
         b == Merging(a.done + [a.right[0]], a.left, a.right[1..])) ||
        (cmp.CanSay(a.right[0], a.left[0], No) &&
         b == Merging(a.done + [a.left[0]], a.left[1..], a.right)))
  }

  /** `m` is what `n` rounds may make of the runs `l` and `r`. */
  ghost predicate ForwardRounds<T(!new)>(cmp: Comparator<T>, n: nat, l: seq<T>, r: seq<T>, m: Merging<T>) {
    if n == 0 then m == Merging([], l, r)
    else exists p :: ForwardRounds(cmp, n - 1, l, r, p) && ForwardRound(cmp, p, m)
  }

  /** Where the parts of a forward merge are, when `start` elements of the left run and those of the
      right run before `right` are consumed. The buffer holds the left run, and `v[out..right]` is the
      gap that the rest of it fits in. */
  ghost predicate ForwardAt<T>(v: array<T>, buf: array<T>, lo: nat, mid: nat, hi: nat, start: nat, right: nat,
                               out: nat, ls: seq<T>, rs: seq<T>, done: seq<T>)
    reads v, buf
  {
    && lo < mid < hi <= v.Length && |ls| == mid - lo <= buf.Length && |rs| == hi - mid && v != buf
    && start <= |ls| && mid <= right <= hi && lo <= out && out + (|ls| - start) == right && |done| == out - lo
    && (forall j :: 0 <= j < |ls| ==> buf[j] == ls[j])
    && (forall j :: lo <= j < out ==> v[j] == done[j - lo])
    && (forall j :: right <= j < hi ==> v[j] == rs[j - mid])
  }

  /** One round of a forward merge. After a panic everything is as it was. */
  method StepForward<T(!new)>(v: array<T>, buf: array<T>, lo: nat, mid: nat, hi: nat, start: nat, right: nat,
                              out: nat, cmp: Comparator<T>, ghost n: nat, ghost ls: seq<T>, ghost rs: seq<T>,
                              ghost done: seq<T>)
    returns (ok: bool, start': nat, right': nat, ghost done': seq<T>)
    requires ForwardAt(v, buf, lo, mid, hi, start, right, out, ls, rs, done) && start < |ls| && right < hi
    requires ForwardRounds(cmp, n, ls, rs, Merging(done, ls[start..], rs[right - mid..]))
    modifies v, cmp
    ensures ok ==> ForwardAt(v, buf, lo, mid, hi, start', right', out + 1, ls, rs, done')
    ensures ok ==> ForwardRounds(cmp, n + 1, ls, rs, Merging(done', ls[start'..], rs[right' - mid..]))
    ensures !ok ==> ForwardAt(v, buf, lo, mid, hi, start, right, out, ls, rs, done)
    ensures cmp.Ended(ok, old(cmp.Panics()))
    ensures forall j :: 0 <= j < lo || hi <= j < v.Length ==> v[j] == old(v[j])
    ensures |cmp.calls| == old(|cmp.calls|) + 1
  {
    var a := cmp.IsLess(v[right], buf[start]);
    if a == Panic {
      return false, start, right, done;
    }
    MoreForward(cmp, n, done, ls, rs, start, right - mid, a);
    ok := true;
    if a == Yes {
      v[out] := v[right];
      start', right', done' := start, right + 1, done + [rs[right - mid]];
    } else {
      v[out] := buf[start];
      start', right', done' := start + 1, right, done + [ls[start]];
    }
  }

  /** The loop of a forward merge of the runs `ls` and `rs`. `buf[start..]` is the hole, to be copied
      to `v[out..right]`. */
  method ForwardLoop<T(!new)>(v: array<T>, lo: nat, mid: nat, hi: nat, buf: array<T>, cmp: Comparator<T>,
                              ghost ls: seq<T>, ghost rs: seq<T>)
    returns (ok: bool, start: nat, right: nat, out: nat, ghost n: nat, ghost done: seq<T>)
    requires ForwardAt(v, buf, lo, mid, hi, 0, mid, lo, ls, rs, [])
    modifies v, cmp
    ensures ForwardAt(v, buf, lo, mid, hi, start, right, out, ls, rs, done)
    ensures forall j :: 0 <= j < lo || hi <= j < v.Length ==> v[j] == old(v[j])
    ensures ForwardRounds(cmp, n, ls, rs, Merging(done, ls[start..], rs[right - mid..]))
    ensures ok ==> start == |ls| || right == hi
    ensures cmp.Ended(ok, old(cmp.Panics()))
    ensures |cmp.calls| <= old(|cmp.calls|) + hi - lo - 1
  {
    ok, start, right, out := true, 0, mid, lo;
    n, done := 0, [];
    while start < mid - lo && right < hi
      invariant ForwardAt(v, buf, lo, mid, hi, start, right, out, ls, rs, done) && out < hi
      invariant forall j :: 0 <= j < lo || hi <= j < v.Length ==> v[j] == old(v[j])
      invariant ForwardRounds(cmp, n, ls, rs, Merging(done, ls[start..], rs[right - mid..]))
      invariant ok && cmp.Panics() == old(cmp.Panics()) && |cmp.calls| == old(|cmp.calls|) + out - lo
      decreases hi - out
    {
      var start', right';
      ghost var done';
      ok, start', right', done' := StepForward(v, buf, lo, mid, hi, start, right, out, cmp, n, ls, rs, done);
      if !ok {
        break;
      }
      start, right, out := start', right', out + 1;
      n, done := n + 1, done';
    }
  }

  /** One more round, by the positions `l` and `r` in the two runs. */
  lemma MoreForward<T(!new)>(cmp: Comparator<T>, n: nat, done: seq<T>, ls: seq<T>, rs: seq<T>,
                             l: nat, r: nat, a: Answer)
    requires l < |ls| && r < |rs| && ForwardRounds(cmp, n, ls, rs, Merging(done, ls[l..], rs[r..]))
    requires a != Panic && cmp.CanSay(rs[r], ls[l], a)
    ensures a == Yes ==> ForwardRounds(cmp, n + 1, ls, rs, Merging(done + [rs[r]], ls[l..], rs[r + 1..]))
    ensures a == No ==> ForwardRounds(cmp, n + 1, ls, rs, Merging(done + [ls[l]], ls[l + 1..], rs[r..]))
  {
    var m := Merging(done, ls[l..], rs[r..]);
    assert ls[l..][1..] == ls[l + 1..] && rs[r..][1..] == rs[r + 1..];
    assert a == Yes ==> ForwardRound(cmp, m, Merging(done + [rs[r]], ls[l..], rs[r + 1..]));
    assert a == No ==> ForwardRound(cmp, m, Merging(done + [ls[l]], ls[l + 1..], rs[r..]));
  }

  /** Forward merging of `v[lo..mid]` and `v[mid..hi]`. */
  method MergeForward<T(!new)>(v: array<T>, lo: nat, mid: nat, hi: nat, buf: array<T>, cmp: Comparator<T>)
    returns (ok: bool, ghost n: nat, ghost m: Merging<T>)
    requires lo < mid < hi <= v.Length && mid - lo <= buf.Length && v != buf
    modifies v, buf, cmp
    ensures forall j :: 0 <= j < lo ==> v[j] == old(v[j])
    ensures forall j :: hi <= j < v.Length ==> v[j] == old(v[j])
    ensures ForwardRounds(cmp, n, old(v[lo..mid]), old(v[mid..hi]), m)
    ensures v[lo..hi] == m.done + m.left + m.right && (ok ==> m.left == [] || m.right == [])
    ensures cmp.Ended(ok, old(cmp.Panics()))
    ensures |cmp.calls| <= old(|cmp.calls|) + hi - lo - 1
  {
    ghost var ls, rs := v[lo..mid], v[mid..hi];
    CopyNonoverlapping(v, lo, buf, 0, mid - lo);
    var start, right, out;
    ghost var done;
    ok, start, right, out, n, done := ForwardLoop(v, lo, mid, hi, buf, cmp, ls, rs);
    m := Merging(done, ls[start..], rs[right - mid..]);
    DropHole(v, lo, hi, buf, start, m.done, m.left, m.right, out, mid - lo - start);
  }

  lemma ForwardRoundKeeps<T(!new)>(cmp: Comparator<T>, ordered: bool, less: (T, T) -> bool, s: seq<T>,
                                   a: Merging<T>, b: Merging<T>)
    requires ordered ==> cmp.Orders(less)
    requires ForwardRound(cmp, a, b) && ForwardState(ordered, less, s, a.done, a.left, a.right)
    ensures ForwardState(ordered, less, s, b.done, b.left, b.right)
  {
    if b.left == a.left {
      TakeRight(ordered, less, s, a.done, a.left, a.right);
    } else {
      TakeLeft(ordered, less, s, a.done, a.left, a.right);
    }
  }

  /** The rounds of a forward merge of two sorted runs keep it in order. */
  lemma {:induction false} ForwardRoundsKeep<T(!new)>(cmp: Comparator<T>, less: (T, T) -> bool, n: nat,
                                                      l: seq<T>, r: seq<T>, m: Merging<T>)
    requires ForwardRounds(cmp, n, l, r, m)
    ensures ForwardState(MergesInOrder(cmp, less, l, r), less, l + r, m.done, m.left, m.right)
  {
    if n == 0 {
      assert [] + l + r == l + r;
    } else {
      var p :| ForwardRounds(cmp, n - 1, l, r, p) && ForwardRound(cmp, p, m);
      ForwardRoundsKeep(cmp, less, n - 1, l, r, p);
      ForwardRoundKeeps(cmp, MergesInOrder(cmp, less, l, r), less, l + r, p, m);
    }
  }

  // ---- merge, when the right run is the shorter one ----

  /** `done` comes after `left` and `right`, and all three are sorted. */
  ghost predicate BackwardOrder<T(!new)>(less: (T, T) -> bool, left: seq<T>, right: seq<T>, done: seq<T>) {
    && Sorted(less, done) && Sorted(less, left) && Sorted(less, right)
    && Below(less, left, done) && Below(less, right, done)
  }

  /** The state of a backward merge: `left` is still in place, `right` still in the buffer and `done`
      has been written. `left + right + done` is what `v` holds once the hole is dropped. */
  ghost predicate BackwardState<T(!new)>(ordered: bool, less: (T, T) -> bool, s: seq<T>,
                                         left: seq<T>, right: seq<T>, done: seq<T>)
  {
    && Rearranges(ordered, less, s, left + right + done)
    && (ordered ==> BackwardOrder(less, left, right, done))
  }

  /** `x` is not before anything in `s`. */
  ghost predicate AtLeast<T>(less: (T, T) -> bool, x: T, s: seq<T>) {
    forall i :: 0 <= i < |s| ==> !less(x, s[i])
  }

  lemma LastAtLeast<T(!new)>(less: (T, T) -> bool, x: T, s: seq<T>)
    requires StrictWeakOrder(less) && Sorted(less, s) && s != [] && !less(x, s[|s| - 1])
    ensures AtLeast(less, x, s)
  {
    var last := |s| - 1;
    forall i | 0 <= i < |s| ensures !less(x, s[i]) {
      assert i < last ==> !less(s[last], s[i]);
    }
  }

  lemma LastLess<T(!new)>(less: (T, T) -> bool, x: T, s: seq<T>)
    requires StrictWeakOrder(less) && Sorted(less, s) && s != [] && less(s[|s| - 1], x)
    ensures forall y :: y in s ==> less(y, x) && !less(x, y)
  {
    var last := |s| - 1;
    forall i | 0 <= i < |s| ensures less(s[i], x) && !less(x, s[i]) {
      assert i < last ==> !less(s[last], s[i]);
    }
  }

  /** The next element written is one that comes after all that is left. */
  lemma BackwardStep<T(!new)>(less: (T, T) -> bool, left: seq<T>, right: seq<T>, done: seq<T>, x: T,
                              left': seq<T>, right': seq<T>)
    requires BackwardOrder(less, left, right, done)
    requires (left' == left && right' + [x] == right) || (left' + [x] == left && right' == right)
    requires AtLeast(less, x, left') && AtLeast(less, x, right')
    ensures BackwardOrder(less, left', right', [x] + done)
  {
    if left' == left {
      assert right[|right'|] == x && right[..|right'|] == right';
    } else {
      assert left[|left'|] == x && left[..|left'|] == left';
    }
  }

  lemma TakeLastLeft<T(!new)>(ordered: bool, less: (T, T) -> bool, s: seq<T>,
                              left: seq<T>, right: seq<T>, done: seq<T>)
    requires ordered ==> StrictWeakOrder(less)
    requires BackwardState(ordered, less, s, left, right, done) && left != [] && right != []
    requires ordered ==> less(right[|right| - 1], left[|left| - 1])
    ensures BackwardState(ordered, less, s, left[..|left| - 1], right, [left[|left| - 1]] + done)
  {
    var l, left' := left[|left| - 1], left[..|left| - 1];
    assert left == left' + [l];
    if ordered {
      LastLess(less, l, right);
      LastAtLeast(less, l, left);
      assert AtLeast(less, l, left');
      BackwardStep(less, left, right, done, l, left', right);
    }
    MoveAcross(ordered, less, l, right);
    RearrangesWithin(ordered, less, left', [l] + right, right + [l], done);
    Regroup(left', [l], right, done);
    Regroup(left', right, [l], done);
  }

  lemma TakeLastRight<T(!new)>(ordered: bool, less: (T, T) -> bool, s: seq<T>,
                               left: seq<T>, right: seq<T>, done: seq<T>)
    requires ordered ==> StrictWeakOrder(less)
    requires BackwardState(ordered, less, s, left, right, done) && left != [] && right != []
    requires ordered ==> !less(right[|right| - 1], left[|left| - 1])
    ensures BackwardState(ordered, less, s, left, right[..|right| - 1], [right[|right| - 1]] + done)
  {
    var r, right' := right[|right| - 1], right[..|right| - 1];
    assert right == right' + [r];
    assert left + right' + ([r] + done) == left + right + done;
    if ordered {
      LastAtLeast(less, r, left);
      LastAtLeast(less, r, right);
      assert AtLeast(less, r, right');
      BackwardStep(less, left, right, done, r, left, right');
    }
  }

  /** One round of the backward loop, with the answer that the comparator gave. */
  ghost predicate BackwardRound<T(!new)>(cmp: Comparator<T>, a: Merging<T>, b: Merging<T>) {
    && a.left != [] && a.right != []
    && var l, r := a.left[|a.left| - 1], a.right[|a.right| - 1];
    && ((cmp.CanSay(r, l, Yes) && b == Merging([l] + a.done, a.left[..|a.left| - 1], a.right)) ||
        (cmp.CanSay(r, l, No) && b == Merging([r] + a.done, a.left, a.right[..|a.right| - 1])))
  }

  /** `m` is what `n` rounds may make of the runs `l` and `r`. */
  ghost predicate BackwardRounds<T(!new)>(cmp: Comparator<T>, n: nat, l: seq<T>, r: seq<T>, m: Merging<T>) {
    if n == 0 then m == Merging([], l, r)
    else exists p :: BackwardRounds(cmp, n - 1, l, r, p) && BackwardRound(cmp, p, m)
  }

  lemma BackwardRoundKeeps<T(!new)>(cmp: Comparator<T>, ordered: bool, less: (T, T) -> bool, s: seq<T>,
                                    a: Merging<T>, b: Merging<T>)
    requires ordered ==> cmp.Orders(less)
    requires BackwardRound(cmp, a, b) && BackwardState(ordered, less, s, a.left, a.right, a.done)
    ensures BackwardState(ordered, less, s, b.left, b.right, b.done)
  {
    if b.left == a.left {
      TakeLastRight(ordered, less, s, a.left, a.right, a.done);
    } else {
      TakeLastLeft(ordered, less, s, a.left, a.right, a.done);
    }
  }

  /** The rounds of a backward merge of two sorted runs keep it in order. */
  lemma {:induction false} BackwardRoundsKeep<T(!new)>(cmp: Comparator<T>, less: (T, T) -> bool, n: nat,
                                                       l: seq<T>, r: seq<T>, m: Merging<T>)
    requires BackwardRounds(cmp, n, l, r, m)
    ensures BackwardState(MergesInOrder(cmp, less, l, r), less, l + r, m.left, m.right, m.done)
  {
    if n == 0 {
      assert l + r + [] == l + r;
    } else {
      var p :| BackwardRounds(cmp, n - 1, l, r, p) && BackwardRound(cmp, p, m);
      BackwardRoundsKeep(cmp, less, n - 1, l, r, p);
      BackwardRoundKeeps(cmp, MergesInOrder(cmp, less, l, r), less, l + r, p, m);
    }
  }

  /** Where the parts of a backward merge are, when the left run before `left` and the first `end`
      elements of the right run are unread. The buffer holds the right run, and `v[left..out]` is the
      gap that the rest of it fits in. */
  ghost predicate BackwardAt<T>(v: array<T>, buf: array<T>, lo: nat, mid: nat, hi: nat, left: nat, end: nat,
                                out: nat, ls: seq<T>, rs: seq<T>, done: seq<T>)
    reads v, buf
  {
    && lo < mid < hi <= v.Length && |ls| == mid - lo && |rs| == hi - mid <= buf.Length && v != buf
    && lo <= left <= mid && end <= |rs| && out == left + end && |done| == hi - out
    && (forall j :: 0 <= j < |rs| ==> buf[j] == rs[j])
    && (forall j :: lo <= j < left ==> v[j] == ls[j - lo])
    && (forall j :: out <= j < hi ==> v[j] == done[j - out])
  }

  /** Writes the next element before those already written. */
  method WriteBefore<T>(v: array<T>, out: nat, hi: nat, x: T, ghost done: seq<T>)
    requires 0 < out <= hi <= v.Length && |done| == hi - out
    requires forall j :: out <= j < hi ==> v[j] == done[j - out]
    modifies v
    ensures forall j :: out - 1 <= j < hi ==> v[j] == ([x] + done)[j - (out - 1)]
    ensures forall j :: 0 <= j < out - 1 || hi <= j < v.Length ==> v[j] == old(v[j])
  {
    v[out - 1] := x;
  }

  /** One round of a backward merge. After a panic everything is as it was. */
  method StepBackward<T(!new)>(v: array<T>, buf: array<T>, lo: nat, mid: nat, hi: nat, left: nat, end: nat,
                               out: nat, cmp: Comparator<T>, ghost n: nat, ghost ls: seq<T>, ghost rs: seq<T>,
                               ghost done: seq<T>)
    returns (ok: bool, left': nat, end': nat, ghost done': seq<T>)
    requires BackwardAt(v, buf, lo, mid, hi, left, end, out, ls, rs, done) && lo < left && 0 < end
    requires BackwardRounds(cmp, n, ls, rs, Merging(done, ls[..left - lo], rs[..end]))
    modifies v, cmp
    ensures ok ==> BackwardAt(v, buf, lo, mid, hi, left', end', out - 1, ls, rs, done')
    ensures ok ==> BackwardRounds(cmp, n + 1, ls, rs, Merging(done', ls[..left' - lo], rs[..end']))
    ensures !ok ==> BackwardAt(v, buf, lo, mid, hi, left, end, out, ls, rs, done)
    ensures cmp.Ended(ok, old(cmp.Panics()))
    ensures forall j :: 0 <= j < lo || hi <= j < v.Length ==> v[j] == old(v[j])
    ensures |cmp.calls| == old(|cmp.calls|) + 1
  {
    var a := cmp.IsLess(buf[end - 1], v[left - 1]);
    if a == Panic {
      return false, left, end, done;
    }
    MoreBackward(cmp, n, done, ls, rs, left - lo, end, a);
    ok := true;
    if a == Yes {
      WriteBefore(v, out, hi, v[left - 1], done);
      left', end', done' := left - 1, end, [ls[left - lo - 1]] + done;
    } else {
      WriteBefore(v, out, hi, buf[end - 1], done);
      left', end', done' := left, end - 1, [rs[end - 1]] + done;
    }
  }

  /** The loop of a backward merge of the runs `ls` and `rs`. `buf[..end]` is the hole, to be copied to
      `v[left..out]`. */
  method BackwardLoop<T(!new)>(v: array<T>, lo: nat, mid: nat, hi: nat, buf: array<T>, cmp: Comparator<T>,
                               ghost ls: seq<T>, ghost rs: seq<T>)
    returns (ok: bool, left: nat, end: nat, out: nat, ghost n: nat, ghost done: seq<T>)
    requires mid < hi && BackwardAt(v, buf, lo, mid, hi, mid, hi - mid, hi, ls, rs, [])
    modifies v, cmp
    ensures BackwardAt(v, buf, lo, mid, hi, left, end, out, ls, rs, done)
    ensures forall j :: 0 <= j < lo || hi <= j < v.Length ==> v[j] == old(v[j])
    ensures BackwardRounds(cmp, n, ls, rs, Merging(done, ls[..left - lo], rs[..end]))
    ensures ok ==> left == lo || end == 0
    ensures cmp.Ended(ok, old(cmp.Panics()))
    ensures |cmp.calls| <= old(|cmp.calls|) + hi - lo - 1
  {
    ok, left, end, out := true, mid, hi - mid, hi;
    n, done := 0, [];
    assert ls[..left - lo] == ls && rs[..end] == rs;
    while lo < left && 0 < end
      invariant BackwardAt(v, buf, lo, mid, hi, left, end, out, ls, rs, done) && lo < out
      invariant forall j :: 0 <= j < lo || hi <= j < v.Length ==> v[j] == old(v[j])
      invariant BackwardRounds(cmp, n, ls, rs, Merging(done, ls[..left - lo], rs[..end]))
      invariant ok && cmp.Panics() == old(cmp.Panics()) && |cmp.calls| == old(|cmp.calls|) + hi - out
      decreases out
    {
      var left', end';
      ghost var done';
      ok, left', end', done' := StepBackward(v, buf, lo, mid, hi, left, end, out, cmp, n, ls, rs, done);
      if !ok {
        break;
      }
      left, end, out := left', end', out - 1;
      n, done := n + 1, done';
    }
  }

  /** One more round, by the positions `l` and `r` in the two runs. */
  lemma MoreBackward<T(!new)>(cmp: Comparator<T>, n: nat, done: seq<T>, ls: seq<T>, rs: seq<T>,
                              l: nat, r: nat, a: Answer)
    requires 0 < l <= |ls| && 0 < r <= |rs| && BackwardRounds(cmp, n, ls, rs, Merging(done, ls[..l], rs[..r]))
    requires a != Panic && cmp.CanSay(rs[r - 1], ls[l - 1], a)
    ensures a == Yes ==> BackwardRounds(cmp, n + 1, ls, rs, Merging([ls[l - 1]] + done, ls[..l - 1], rs[..r]))
    ensures a == No ==> BackwardRounds(cmp, n + 1, ls, rs, Merging([rs[r - 1]] + done, ls[..l], rs[..r - 1]))
  {
    var m := Merging(done, ls[..l], rs[..r]);
    assert ls[..l][..l - 1] == ls[..l - 1] && rs[..r][..r - 1] == rs[..r - 1];
    assert a == Yes ==> BackwardRound(cmp, m, Merging([ls[l - 1]] + done, ls[..l - 1], rs[..r]));
    assert a == No ==> BackwardRound(cmp, m, Merging([rs[r - 1]] + done, ls[..l], rs[..r - 1]));
  }

  /** Backward merging of `v[lo..mid]` and `v[mid..hi]`. */
  method MergeBackward<T(!new)>(v: array<T>, lo: nat, mid: nat, hi: nat, buf: array<T>, cmp: Comparator<T>)
    returns (ok: bool, ghost n: nat, ghost m: Merging<T>)
    requires lo < mid < hi <= v.Length && hi - mid <= buf.Length && v != buf
    modifies v, buf, cmp
    ensures forall j :: 0 <= j < lo ==> v[j] == old(v[j])
    ensures forall j :: hi <= j < v.Length ==> v[j] == old(v[j])
    ensures BackwardRounds(cmp, n, old(v[lo..mid]), old(v[mid..hi]), m)
    ensures v[lo..hi] == m.left + m.right + m.done && (ok ==> m.left == [] || m.right == [])
    ensures cmp.Ended(ok, old(cmp.Panics()))
    ensures |cmp.calls| <= old(|cmp.calls|) + hi - lo - 1
  {
    ghost var ls, rs := v[lo..mid], v[mid..hi];
    CopyNonoverlapping(v, mid, buf, 0, hi - mid);
    var left, end, out;
    ghost var done;
    ok, left, end, out, n, done := BackwardLoop(v, lo, mid, hi, buf, cmp, ls, rs);
    m := Merging(done, ls[..left - lo], rs[..end]);
    DropHole(v, lo, hi, buf, 0, m.left, m.right, m.done, left, end);
  }

  // ---- merge ----

  /** With one run used up, what is written and what is left is sorted. */
  lemma ForwardSorted<T(!new)>(less: (T, T) -> bool, done: seq<T>, left: seq<T>, right: seq<T>)
    requires ForwardOrder(less, done, left, right) && (left == [] || right == [])
    ensures Sorted(less, done + left + right)
  {
    if left == [] {
      assert done + left + right == done + right;
      SortedConcat(less, done, right);
    } else {
      assert done + left + right == done + left;
      SortedConcat(less, done, left);
    }
  }

  lemma BackwardSorted<T(!new)>(less: (T, T) -> bool, left: seq<T>, right: seq<T>, done: seq<T>)
    requires BackwardOrder(less, left, right, done) && (left == [] || right == [])
    ensures Sorted(less, left + right + done)
  {
    if left == [] {
      assert left + right + done == right + done;
      SortedConcat(less, right, done);
    } else {
      assert left + right + done == left + done;
      SortedConcat(less, left, done);
    }
  }

  lemma ForwardEnds<T(!new)>(cmp: Comparator<T>, less: (T, T) -> bool, n: nat, l: seq<T>, r: seq<T>, m: Merging<T>)
    requires ForwardRounds(cmp, n, l, r, m)
    ensures Rearranges(MergesInOrder(cmp, less, l, r), less, l + r, m.done + m.left + m.right)
    ensures MergesInOrder(cmp, less, l, r) && (m.left == [] || m.right == []) ==>
              Sorted(less, m.done + m.left + m.right)
  {
    ForwardRoundsKeep(cmp, less, n, l, r, m);
    if MergesInOrder(cmp, less, l, r) && (m.left == [] || m.right == []) {
      ForwardSorted(less, m.done, m.left, m.right);
    }
  }

  lemma BackwardEnds<T(!new)>(cmp: Comparator<T>, less: (T, T) -> bool, n: nat, l: seq<T>, r: seq<T>, m: Merging<T>)
    requires BackwardRounds(cmp, n, l, r, m)
    ensures Rearranges(MergesInOrder(cmp, less, l, r), less, l + r, m.left + m.right + m.done)
    ensures MergesInOrder(cmp, less, l, r) && (m.left == [] || m.right == []) ==>
              Sorted(less, m.left + m.right + m.done)
  {
    BackwardRoundsKeep(cmp, less, n, l, r, m);
    if MergesInOrder(cmp, less, l, r) && (m.left == [] || m.right == []) {
      BackwardSorted(less, m.left, m.right, m.done);
    }
  }

  /** Merges through the shorter run. `t` is what `v[lo..hi]` then holds. */
  method MergeShorter<T(!new)>(v: array<T>, lo: nat, mid: nat, hi: nat, buf: array<T>, cmp: Comparator<T>,
                               ghost less: (T, T) -> bool, ghost l: seq<T>, ghost r: seq<T>)
    returns (ok: bool, ghost t: seq<T>)
    requires lo < mid < hi <= v.Length && v != buf
    requires (if mid - lo <= hi - mid then mid - lo else hi - mid) <= buf.Length
    requires v[lo..mid] == l && v[mid..hi] == r
    modifies v, buf, cmp
    ensures forall j :: 0 <= j < lo ==> v[j] == old(v[j])
    ensures forall j :: hi <= j < v.Length ==> v[j] == old(v[j])
    ensures v[lo..hi] == t && Rearranges(MergesInOrder(cmp, less, l, r), less, l + r, t)
    ensures MergesInOrder(cmp, less, l, r) && ok ==> Sorted(less, t)
    ensures cmp.Ended(ok, old(cmp.Panics()))
    ensures |cmp.calls| <= old(|cmp.calls|) + hi - lo - 1
  {
    ghost var n, m;
    if mid - lo <= hi - mid {
      ok, n, m := MergeForward(v, lo, mid, hi, buf, cmp);
      ForwardEnds(cmp, less, n, l, r, m);
      t := m.done + m.left + m.right;
    } else {
      ok, n, m := MergeBackward(v, lo, mid, hi, buf, cmp);
      BackwardEnds(cmp, less, n, l, r, m);
      t := m.left + m.right + m.done;
    }
  }

  /** Merges the neighbouring runs `l` and `r` of `v[lo..hi]`, with room for the shorter one. */
  method Merge<T(!new)>(v: array<T>, lo: nat, mid: nat, hi: nat, buf: array<T>, cmp: Comparator<T>,
                        ghost less: (T, T) -> bool, ghost l: seq<T>, ghost r: seq<T>)
    returns (ok: bool)
    requires lo < mid < hi <= v.Length && v != buf
    requires (if mid - lo <= hi - mid then mid - lo else hi - mid) <= buf.Length
    requires v[lo..mid] == l && v[mid..hi] == r
    modifies v, buf, cmp
    ensures forall j :: 0 <= j < lo ==> v[j] == old(v[j])
    ensures forall j :: hi <= j < v.Length ==> v[j] == old(v[j])
    ensures Rearranges(MergesInOrder(cmp, less, l, r), less, old(v[..]), v[..])
    ensures cmp.Orders(less) ==> ok
    ensures MergesInOrder(cmp, less, l, r) ==> Sorted(less, v[..][lo..hi])
    ensures cmp.Ended(ok, old(cmp.Panics()))
    ensures |cmp.calls| <= old(|cmp.calls|) + hi - lo - 1
  {
    ghost var w, t := v[..], [];
    assert w[lo..hi] == l + r;
    ok, t := MergeShorter(v, lo, mid, hi, buf, cmp, less, l, r);
    cmp.OrdersWithoutPanic(less);
    assert v[..][lo..hi] == t;
    RearrangesPart(MergesInOrder(cmp, less, l, r), less, w, v[..], lo, hi);
  }
}

/** The stack of pending runs of `merge_sort`: which two runs `collapse` picks, the length
    invariants that its look at the top four runs maintains for the whole stack, the height of the
    stack, and the amortised cost of the merges. */
module RunStack {
  import opened Options
  import opened Powers
  import opened Products

  datatype Run = Run(start: nat, len: nat)

  /** Which pair of runs to merge next: `Some(r)` asks for `runs[r]` and `runs[r + 1]`. */
  function Collapse(runs: seq<Run>): Option<nat> {
    var n := |runs|;
    if n >= 2 && (runs[n - 1].start == 0 ||
                  runs[n - 2].len <= runs[n - 1].len ||
                  (n >= 3 && runs[n - 3].len <= runs[n - 2].len + runs[n - 1].len) ||
                  (n >= 4 && runs[n - 4].len <= runs[n - 3].len + runs[n - 2].len)) then
      if n >= 3 && runs[n - 3].len < runs[n - 1].len then Some(n - 3) else Some(n - 2)
    else
      None
  }

  /** `runs[r]` becomes the merged run and `runs[r + 1]` is removed. */
  function Merged(runs: seq<Run>, r: nat): seq<Run>
    requires r + 1 < |runs|
  {
    runs[..r] + [Run(runs[r + 1].start, runs[r + 1].len + runs[r].len)] + runs[r + 2..]
  }

  /** The runs, read from the top of the stack down, cover `[end, len)` without gap or overlap. */
  ghost predicate Tiles(runs: seq<Run>, end: nat, len: nat) {
    if runs == [] then end == len
    else
      var top := runs[|runs| - 1];
      top.start == end && top.len > 0 && Tiles(runs[..|runs| - 1], end + top.len, len)
  }

  /** The two invariants of the sort, at one entry of the stack. */
  ghost predicate PairDecreases(runs: seq<Run>, i: int)
    requires 1 <= i < |runs|
  {
    runs[i - 1].len > runs[i].len
  }

  ghost predicate TripleDecreases(runs: seq<Run>, i: int)
    requires 2 <= i < |runs|
  {
    runs[i - 2].len > runs[i - 1].len + runs[i].len
  }

  /** The two invariants of the sort, for every entry of the stack. */
  ghost predicate LengthsDecrease(runs: seq<Run>) {
    && (forall i :: 1 <= i < |runs| ==> PairDecreases(runs, i))
    && (forall i :: 2 <= i < |runs| ==> TripleDecreases(runs, i))
  }

  /** What is left of the invariants while runs are being merged. */
  ghost predicate LengthsDecreaseBelowTop(runs: seq<Run>) {
    |runs| >= 2 ==> LengthsDecrease(runs[..|runs| - 2])
  }

  /** `collapse` asks for a merge exactly when the top run begins the slice or one of the invariants fails
      for one of the top two entries. */
  lemma CollapseWhen(runs: seq<Run>)
    ensures var n := |runs|;
            Collapse(runs).None? <==>
            n < 2 || (runs[n - 1].start > 0 && PairDecreases(runs, n - 1)
                      && (n >= 3 ==> TripleDecreases(runs, n - 1)) && (n >= 4 ==> TripleDecreases(runs, n - 2)))
  {
  }

  /** It always merges the run below the top, and with the shorter of its neighbours. */
  lemma CollapseWhich(runs: seq<Run>)
    requires Collapse(runs).Some?
    ensures var n, r := |runs|, Collapse(runs).value;
            && n >= 2 && (r == n - 2 || r == n - 3)
            && (n >= 3 && r == n - 3 ==> runs[n - 3].len < runs[n - 1].len)
            && (n >= 3 && r == n - 2 ==> runs[n - 1].len <= runs[n - 3].len)
  {
  }

  /** Looking at the top four runs is enough: when `collapse` has nothing to do, the invariants
      hold for the whole stack, given that they hold below the top two runs. */
  lemma CollapseSettles(runs: seq<Run>)
    requires LengthsDecreaseBelowTop(runs) && Collapse(runs).None?
    ensures LengthsDecrease(runs)
  {
    forall i | 1 <= i < |runs| ensures PairDecreases(runs, i) {
      if i < |runs| - 2 { assert PairDecreases(runs[..|runs| - 2], i); }
    }
    forall i | 2 <= i < |runs| ensures TripleDecreases(runs, i) {
      if i < |runs| - 2 { assert TripleDecreases(runs[..|runs| - 2], i); }
    }
  }

  lemma TilesTop(runs: seq<Run>, top: Run, end: nat, len: nat)
    ensures Tiles(runs + [top], end, len) <==>
            top.start == end && top.len > 0 && Tiles(runs, end + top.len, len)
  {
    assert (runs + [top])[..|runs|] == runs;
  }

  /** Merging two neighbouring runs keeps the tiling. */
  lemma {:induction false} MergedTiles(runs: seq<Run>, end: nat, len: nat, r: nat)
    requires Tiles(runs, end, len) && r + 1 < |runs|
    ensures Tiles(Merged(runs, r), end, len)
  {
    var n := |runs|;
    var top := runs[n - 1];
    assert runs == runs[..n - 1] + [top];
    if r == n - 2 {
      assert runs[..n - 1] == runs[..n - 2] + [runs[n - 2]];
      TilesTop(runs[..n - 2], runs[n - 2], end + top.len, len);
      TilesTop(runs[..n - 2], Run(top.start, top.len + runs[n - 2].len), end, len);
      assert Merged(runs, r) == runs[..n - 2] + [Run(top.start, top.len + runs[n - 2].len)];
    } else {
      MergedTiles(runs[..n - 1], end + top.len, len, r);
      assert Merged(runs, r) == Merged(runs[..n - 1], r) + [top];
      TilesTop(Merged(runs[..n - 1], r), top, end, len);
    }
  }

  /** Every run lies in the tiled range, and is not empty. */
  lemma {:induction false} RunsFit(runs: seq<Run>, end: nat, len: nat, i: nat)
    requires Tiles(runs, end, len) && i < |runs|
    ensures end <= runs[i].start && runs[i].len > 0 && runs[i].start + runs[i].len <= len
    ensures i > 0 ==> runs[i].start + runs[i].len == runs[i - 1].start
  {
    TilesEnd(runs[..|runs| - 1], end + runs[|runs| - 1].len, len);
    if i < |runs| - 1 {
      RunsFit(runs[..|runs| - 1], end + runs[|runs| - 1].len, len, i);
    }
  }

  /** Two neighbouring runs, and what they make when merged, lie in the tiled range. */
  lemma NeighboursFit(runs: seq<Run>, end: nat, len: nat, r: nat)
    requires Tiles(runs, end, len) && r + 1 < |runs|
    ensures runs[r + 1].start < runs[r].start < runs[r].start + runs[r].len <= len
    ensures runs[r + 1].start + runs[r + 1].len == runs[r].start
  {
    RunsFit(runs, end, len, r);
    RunsFit(runs, end, len, r + 1);
  }

  /** Runs further down the stack lie further up in the slice. */
  lemma {:induction false} RunsApart(runs: seq<Run>, end: nat, len: nat, i: nat, j: nat)
    requires Tiles(runs, end, len) && i < j < |runs|
    ensures runs[j].start + runs[j].len <= runs[i].start
    decreases j
  {
    RunsFit(runs, end, len, j);
    if i < j - 1 {
      RunsApart(runs, end, len, i, j - 1);
      RunsFit(runs, end, len, j - 1);
    }
  }

  lemma {:induction false} TilesEnd(runs: seq<Run>, end: nat, len: nat)
    requires Tiles(runs, end, len)
    ensures end <= len
  {
    if runs != [] {
      TilesEnd(runs[..|runs| - 1], end + runs[|runs| - 1].len, len);
    }
  }

  /** Merging two of the top three runs leaves those below alone. */
  lemma MergedBelowTop(runs: seq<Run>, r: nat)
    requires r + 1 < |runs| <= r + 3 && LengthsDecreaseBelowTop(runs)
    ensures LengthsDecreaseBelowTop(Merged(runs, r))
  {
    var k := |runs| - 3;
    if k >= 0 {
      assert Merged(runs, r)[..k] == runs[..k];
      LengthsDecreasePrefix(runs[..k + 1], k);
      assert runs[..k + 1][..k] == runs[..k];
    }
  }

  /** A merge asked for by `collapse` keeps the tiling and what is known below the top. */
  lemma MergeKeeps(runs: seq<Run>, end: nat, len: nat)
    requires Tiles(runs, end, len) && LengthsDecreaseBelowTop(runs) && Collapse(runs).Some?
    ensures var r := Collapse(runs).value;
            Tiles(Merged(runs, r), end, len) && LengthsDecreaseBelowTop(Merged(runs, r))
  {
    MergedTiles(runs, end, len, Collapse(runs).value);
    MergedBelowTop(runs, Collapse(runs).value);
  }

  lemma LengthsDecreasePrefix(runs: seq<Run>, k: nat)
    requires LengthsDecrease(runs) && k <= |runs|
    ensures LengthsDecrease(runs[..k])
  {
    forall i | 1 <= i < k ensures PairDecreases(runs[..k], i) { assert PairDecreases(runs, i); }
    forall i | 2 <= i < k ensures TripleDecreases(runs[..k], i) { assert TripleDecreases(runs, i); }
  }

  /** Pushing a run onto a settled stack. */
  lemma PushKeeps(runs: seq<Run>, run: Run, len: nat)
    requires Tiles(runs, run.start + run.len, len) && LengthsDecrease(runs) && run.len > 0
    ensures Tiles(runs + [run], run.start, len) && LengthsDecreaseBelowTop(runs + [run])
  {
    TilesTop(runs, run, run.start, len);
    var pushed := runs + [run];
    if |pushed| >= 2 {
      assert pushed[..|pushed| - 2] == runs[..|runs| - 1];
      LengthsDecreasePrefix(runs, |runs| - 1);
    }
  }

  /** Once the top run starts at 0, the stack is settled only when a single run is left. */
  lemma CollapseFinishes(runs: seq<Run>, len: nat)
    requires Tiles(runs, 0, len) && len > 0 && Collapse(runs).None?
    ensures runs == [Run(0, len)]
  {
    assert |runs| == 1 ==> runs[..0] == [];
  }

  // ---- Three runs would not do ----

  /** `collapse` without its fourth comparison. */
  function CollapseTopThree(runs: seq<Run>): Option<nat> {
    var n := |runs|;
    if n >= 2 && (runs[n - 1].start == 0 ||
                  runs[n - 2].len <= runs[n - 1].len ||
                  (n >= 3 && runs[n - 3].len <= runs[n - 2].len + runs[n - 1].len)) then
      if n >= 3 && runs[n - 3].len < runs[n - 1].len then Some(n - 3) else Some(n - 2)
    else
      None
  }

  /** Lengths 120, 80, 25, 20 are settled; pushing a run of 30 makes the three-run rule merge 25
      with 20 and then stop, with 120 <= 80 + 45 left behind. */
  lemma TopThreeIsNotEnough()
    ensures exists runs: seq<Run>, run: Run ::
              && Tiles(runs, run.start + run.len, 1000) && LengthsDecrease(runs) && run.len > 0
              && CollapseTopThree(runs + [run]).Some?
              && var after := Merged(runs + [run], CollapseTopThree(runs + [run]).value);
                 CollapseTopThree(after).None? && !LengthsDecrease(after)
  {
    var runs := [Run(880, 120), Run(800, 80), Run(775, 25), Run(755, 20)];
    var run := Run(725, 30);
    ExampleTiles();
    assert LengthsDecrease(runs);
    assert CollapseTopThree(runs + [run]) == Some(2);
    var after := Merged(runs + [run], 2);
    assert after == [Run(880, 120), Run(800, 80), Run(755, 45), Run(725, 30)];
    assert !TripleDecreases(after, 2);
    assert CollapseTopThree(after).None?;
  }

  lemma ExampleTiles()
    ensures Tiles([Run(880, 120), Run(800, 80), Run(775, 25), Run(755, 20)], 755, 1000)
  {
    var a, b, c, d := Run(880, 120), Run(800, 80), Run(775, 25), Run(755, 20);
    TilesTop([], a, 880, 1000);
    TilesTop([a], b, 800, 1000);
    TilesTop([a, b], c, 775, 1000);
    TilesTop([a, b, c], d, 755, 1000);
    assert [] + [a] == [a] && [a] + [b] == [a, b] && [a, b] + [c] == [a, b, c];
    assert [a, b, c] + [d] == [a, b, c, d];
  }

  // ---- The height of a settled stack ----

  function Fib(n: nat): nat { if n < 2 then n else Fib(n - 1) + Fib(n - 2) }

  lemma DoublePower(k: nat)
    ensures Pow(2, k + 1) == 2 * Pow(2, k) && Pow(2, k + 2) == 2 * Pow(2, k + 1)
  {
  }

  /** The whole part of the binary logarithm. */
  function Log2(n: nat): (k: nat)
    requires n >= 1
    ensures Pow(2, k) <= n < Pow(2, k + 1)
  {
    if n == 1 then 0
    else
      var k := Log2(n / 2);
      DoublePower(k);
      k + 1
  }

  lemma {:induction false} LengthsAreFibonacci(runs: seq<Run>, i: nat)
    requires LengthsDecrease(runs) && forall j :: 0 <= j < |runs| ==> runs[j].len > 0
    requires i < |runs|
    ensures runs[i].len + 1 >= Fib(|runs| - i + 2)
    decreases |runs| - i
  {
    if i + 1 == |runs| {
      assert Fib(3) == 2;
    } else if i + 2 == |runs| {
      assert PairDecreases(runs, i + 1);
      assert Fib(4) == 3;
    } else {
      LengthsAreFibonacci(runs, i + 1);
      LengthsAreFibonacci(runs, i + 2);
      assert TripleDecreases(runs, i + 2);
    }
  }

  lemma {:induction false} FibonacciDoubles(k: nat)
    ensures Fib(2 * k + 2) >= Pow(2, k) && Fib(2 * k + 3) >= Pow(2, k)
  {
    if k > 0 {
      FibonacciDoubles(k - 1);
      assert Fib(2 * k + 2) == Fib(2 * k + 1) + Fib(2 * k);
    }
  }

  /** No stack of runs over `len` elements is higher than this. */
  function MaxHeight(len: nat): nat { 2 * Log2(len + 1) + 1 }

  /** The height of a settled stack is logarithmic in the length of the slice. */
  lemma HeightIsLogarithmic(runs: seq<Run>, end: nat, len: nat)
    requires Tiles(runs, end, len) && LengthsDecrease(runs)
    ensures Fib(|runs| + 2) <= len + 1
    ensures |runs| <= MaxHeight(len)
  {
    if runs != [] {
      forall i | 0 <= i < |runs| ensures runs[i].len > 0 { RunsFit(runs, end, len, i); }
      LengthsAreFibonacci(runs, 0);
      RunsFit(runs, end, len, 0);
      FibonacciBound(|runs|, len);
    }
  }

  lemma FibonacciBound(height: nat, len: nat)
    requires Fib(height + 2) <= len + 1
    ensures height <= MaxHeight(len)
  {
    var k := height / 2;
    FibonacciDoubles(k);
    if k > Log2(len + 1) {
      PowMonotone(2, Log2(len + 1) + 1, k);
    }
  }

  // ---- The cost of the merges ----

  /** Three comparisons for every element and every run below the one it is in. */
  ghost function Potential(runs: seq<Run>): nat {
    if runs == [] then 0
    else Potential(runs[..|runs| - 1]) + Times(3 * (|runs| - 1), runs[|runs| - 1].len)
  }

  /** How far the merges may be overdrawn: by the length of the top run, and only while another
      merge is bound to follow or the sort is finished. */
  ghost function Overdraft(runs: seq<Run>): nat {
    if runs != [] && (Collapse(runs).Some? || runs[|runs| - 1].start == 0)
    then runs[|runs| - 1].len else 0
  }

  lemma PotentialTop(runs: seq<Run>, run: Run)
    ensures Potential(runs + [run]) == Potential(runs) + Times(3 * |runs|, run.len)
  {
    assert (runs + [run])[..|runs|] == runs;
  }

  lemma PotentialTopTwo(runs: seq<Run>, a: Run, b: Run)
    ensures Potential(runs + [a, b]) ==
            Potential(runs) + Times(3 * |runs|, a.len) + Times(3 * (|runs| + 1), b.len)
  {
    assert runs + [a, b] == runs + [a] + [b];
    PotentialTop(runs, a);
    PotentialTop(runs + [a], b);
  }

  /** One level further up costs three more for every element. */
  lemma {:induction false} OneLevelUp(n: nat, len: nat)
    ensures Times(3 * (n + 1), len) == Times(3 * n, len) + 3 * len
  {
    if len > 0 { OneLevelUp(n, len - 1); }
  }

  /** Merging the top two runs takes the top one a level down. */
  lemma TopMergePotential(below: seq<Run>, a: Run, b: Run)
    ensures Potential(below + [Run(b.start, b.len + a.len)]) + 3 * b.len
            == Potential(below + [a, b])
  {
    PotentialTopTwo(below, a, b);
    PotentialTop(below, Run(b.start, b.len + a.len));
    TimesAdds(3 * |below|, b.len, a.len);
    OneLevelUp(|below|, b.len);
  }

  /** Merging the two runs below the top takes the upper one of them and the top a level down. */
  lemma LowerMergePotential(below: seq<Run>, a: Run, b: Run, c: Run)
    ensures Potential(below + [Run(b.start, b.len + a.len), c]) + 3 * b.len + 3 * c.len
            == Potential(below + [a, b, c])
  {
    var m := Run(b.start, b.len + a.len);
    TopMergePotential(below, a, b);
    assert below + [m, c] == below + [m] + [c];
    assert below + [a, b, c] == below + [a, b] + [c];
    PotentialTop(below + [m], c);
    PotentialTop(below + [a, b], c);
    OneLevelUp(|below| + 1, c.len);
  }

  lemma TopMergeIsPaidFor(runs: seq<Run>)
    requires |runs| >= 2 && Collapse(runs) == Some(|runs| - 2)
    ensures var a, b := runs[|runs| - 2].len, runs[|runs| - 1].len;
            a + b + Potential(Merged(runs, |runs| - 2)) + Overdraft(runs)
            <= Potential(runs) + Overdraft(Merged(runs, |runs| - 2))
  {
    var n := |runs|;
    var below, a, b := runs[..n - 2], runs[n - 2], runs[n - 1];
    assert runs == below + [a, b];
    assert Merged(runs, n - 2) == below + [Run(b.start, b.len + a.len)];
    TopMergePotential(below, a, b);
    assert Overdraft(runs) == b.len;
    if a.len > b.len { TopMergeContinues(runs); }
  }

  lemma LowerMergeIsPaidFor(runs: seq<Run>)
    requires |runs| >= 3 && Collapse(runs) == Some(|runs| - 3)
    ensures var a, b := runs[|runs| - 3].len, runs[|runs| - 2].len;
            a + b + Potential(Merged(runs, |runs| - 3)) + Overdraft(runs) <= Potential(runs)
  {
    var n := |runs|;
    var below, a, b, c := runs[..n - 3], runs[n - 3], runs[n - 2], runs[n - 1];
    assert runs == below + [a, b, c];
    assert Merged(runs, n - 3) == below + [Run(b.start, b.len + a.len), c];
    LowerMergePotential(below, a, b, c);
    assert Overdraft(runs) == c.len;
  }

  /** The amortised step: the potential a merge releases, with the overdraft, pays for it. */
  lemma MergeIsPaidFor(runs: seq<Run>)
    requires Collapse(runs).Some?
    ensures var r := Collapse(runs).value;
            runs[r].len + runs[r + 1].len + Potential(Merged(runs, r)) + Overdraft(runs)
            <= Potential(runs) + Overdraft(Merged(runs, r))
  {
    if Collapse(runs).value == |runs| - 2 {
      TopMergeIsPaidFor(runs);
    } else {
      LowerMergeIsPaidFor(runs);
    }
  }

  /** After a shorter top run was merged, there is more to merge, or the sort is finished. */
  lemma TopMergeContinues(runs: seq<Run>)
    requires |runs| >= 2 && Collapse(runs) == Some(|runs| - 2)
    requires runs[|runs| - 2].len > runs[|runs| - 1].len
    ensures Overdraft(Merged(runs, |runs| - 2)) == runs[|runs| - 2].len + runs[|runs| - 1].len
  {
    var n := |runs|;
    var m := Merged(runs, n - 2);
    assert |m| == n - 1 && m[n - 2] == Run(runs[n - 1].start, runs[n - 1].len + runs[n - 2].len);
    assert n >= 3 ==> m[n - 3] == runs[n - 3];
    assert n >= 4 ==> m[n - 4] == runs[n - 4];
  }
}

/** Build steps and what they mean. A step's `run` asks for other steps one after the other, each
    time looking at the outputs it has received so far, and finally produces its own output or
    panics. The meaning of a step is given by plain recursion, without cache or call stack. */
module StepGraph {

  datatype Action<S, O> = Request(step: S) | Finish(out: O) | Panic(message: string)

  /** The `run` bodies: what a step does next, given the outputs of its requests so far; and a bound
      on how many requests it makes. */
  datatype Graph<!S, !O> = Graph(next: (S, seq<O>) -> Action<S, O>, limit: S -> nat)

  ghost predicate WellFormed<S(!new), O(!new)>(g: Graph<S, O>) {
    forall s, answers :: |answers| >= g.limit(s) ==> !g.next(s, answers).Request?
  }

  datatype Meaning<O> = Diverges | Panics(message: string) | Value(out: O)

  /** Plain recursion, `n` levels deep; `Diverges` stands for running deeper than that. */
  ghost function Eval<S(!new), O(!new)>(g: Graph<S, O>, n: nat, s: S): Meaning<O>
    requires WellFormed(g)
    decreases n, 0, 0
  {
    if n == 0 then Diverges else EvalFrom(g, n - 1, s, [])
  }

  ghost function EvalFrom<S(!new), O(!new)>(g: Graph<S, O>, n: nat, s: S, answers: seq<O>): Meaning<O>
    requires WellFormed(g)
    decreases n, 1, g.limit(s) - |answers|
  {
    match g.next(s, answers)
    case Finish(o) => Value(o)
    case Panic(m) => Panics(m)
    case Request(t) =>
      var r := Eval(g, n, t);
      if r.Value? then EvalFrom(g, n, s, answers + [r.out]) else r
  }

  /** What plain recursion on `s` comes to. */
  ghost function Means<S(!new), O(!new)>(g: Graph<S, O>, s: S): Meaning<O>
    requires WellFormed(g)
  {
    if n: nat :| Eval(g, n, s) != Diverges then Eval(g, n, s) else Diverges
  }

  // ---- More levels do not change a result ----

  lemma {:induction false} EvalMonotone<S(!new), O(!new)>(g: Graph<S, O>, n: nat, m: nat, s: S)
    requires WellFormed(g) && n <= m && Eval(g, n, s) != Diverges
    ensures Eval(g, m, s) == Eval(g, n, s)
    decreases n, 0, 0
  {
    EvalFromMonotone(g, n - 1, m - 1, s, []);
  }

  lemma {:induction false} EvalFromMonotone<S(!new), O(!new)>(g: Graph<S, O>, n: nat, m: nat, s: S, answers: seq<O>)
    requires WellFormed(g) && n <= m && EvalFrom(g, n, s, answers) != Diverges
    ensures EvalFrom(g, m, s, answers) == EvalFrom(g, n, s, answers)
    decreases n, 1, g.limit(s) - |answers|
  {
    match g.next(s, answers) {
      case Finish(_) =>
      case Panic(_) =>
      case Request(t) =>
        EvalMonotone(g, n, m, t);
        var r := Eval(g, n, t);
        if r.Value? {
          EvalFromMonotone(g, n, m, s, answers + [r.out]);
        }
    }
  }

  /** Any number of levels that suffices gives the meaning. */
  lemma EvalMeans<S(!new), O(!new)>(g: Graph<S, O>, n: nat, s: S)
    requires WellFormed(g) && Eval(g, n, s) != Diverges
    ensures Means(g, s) == Eval(g, n, s)
  {
    var m: nat :| Eval(g, m, s) != Diverges && Means(g, s) == Eval(g, m, s);
    if n <= m { EvalMonotone(g, n, m, s); } else { EvalMonotone(g, m, n, s); }
  }

  // ---- Requests ----

  /** `answers` are the outputs that the first requests of `s` really have. */
  ghost predicate Answered<S(!new), O(!new)>(g: Graph<S, O>, s: S, answers: seq<O>)
    requires WellFormed(g)
  {
    forall i :: 0 <= i < |answers| ==>
      g.next(s, answers[..i]).Request? && Means(g, g.next(s, answers[..i]).step) == Value(answers[i])
  }

  /** Running `s`, one comes to a request of `t`. */
  ghost predicate Requests<S(!new), O(!new)>(g: Graph<S, O>, s: S, t: S)
    requires WellFormed(g)
  {
    exists answers :: Answered(g, s, answers) && g.next(s, answers) == Request(t)
  }

  lemma AnsweredNext<S(!new), O(!new)>(g: Graph<S, O>, s: S, answers: seq<O>, o: O)
    requires WellFormed(g) && Answered(g, s, answers) && g.next(s, answers).Request?
    requires Means(g, g.next(s, answers).step) == Value(o)
    ensures Answered(g, s, answers + [o])
  {
    var more := answers + [o];
    forall i | 0 <= i < |more|
      ensures g.next(s, more[..i]).Request? && Means(g, g.next(s, more[..i]).step) == Value(more[i])
    {
      if i < |answers| {
        assert more[..i] == answers[..i];
      } else {
        assert more[..i] == answers;
      }
    }
  }

  lemma AnsweredPrefix<S(!new), O(!new)>(g: Graph<S, O>, s: S, answers: seq<O>, i: nat)
    requires WellFormed(g) && Answered(g, s, answers) && i <= |answers|
    ensures Answered(g, s, answers[..i])
  {
    forall k | 0 <= k < i
      ensures g.next(s, answers[..i][..k]).Request?
      ensures Means(g, g.next(s, answers[..i][..k]).step) == Value(answers[..i][k])
    {
      assert answers[..i][..k] == answers[..k];
    }
  }

  /** Levels that suffice for all the answers. */
  lemma {:induction false} CommonDepth<S(!new), O(!new)>(g: Graph<S, O>, s: S, answers: seq<O>) returns (n: nat)
    requires WellFormed(g) && Answered(g, s, answers)
    ensures forall m: nat :: n <= m ==> EvalFrom(g, m, s, []) == EvalFrom(g, m, s, answers)
    decreases |answers|
  {
    if answers == [] {
      n := 0;
    } else {
      var k := |answers| - 1;
      AnsweredPrefix(g, s, answers, k);
      n := CommonDepth(g, s, answers[..k]);
      var t := g.next(s, answers[..k]).step;
      var d: nat :| Eval(g, d, t) != Diverges && Means(g, t) == Eval(g, d, t);
      if n < d { n := d; }
      forall m: nat | n <= m ensures EvalFrom(g, m, s, []) == EvalFrom(g, m, s, answers) {
        EvalMonotone(g, d, m, t);
        assert answers[..k] + [answers[k]] == answers;
      }
    }
  }

  /** A step that has received true answers means what it goes on to do. */
  lemma RunMeans<S(!new), O(!new)>(g: Graph<S, O>, s: S, answers: seq<O>)
    requires WellFormed(g) && Answered(g, s, answers)
    ensures g.next(s, answers).Finish? ==> Means(g, s) == Value(g.next(s, answers).out)
    ensures g.next(s, answers).Panic? ==> Means(g, s) == Panics(g.next(s, answers).message)
    ensures g.next(s, answers).Request? && Means(g, g.next(s, answers).step).Panics? ==>
              Means(g, s) == Means(g, g.next(s, answers).step)
  {
    var n := CommonDepth(g, s, answers);
    match g.next(s, answers)
    case Finish(_) => EvalMeans(g, n + 1, s);
    case Panic(_) => EvalMeans(g, n + 1, s);
    case Request(t) =>
      if Means(g, t).Panics? {
        var d: nat :| Eval(g, d, t) != Diverges && Means(g, t) == Eval(g, d, t);
        var m := if n < d then d else n;
        EvalMonotone(g, d, m, t);
        EvalMeans(g, m + 1, s);
      }
  }

  /** Whatever a step requests needs fewer levels than the step. */
  lemma {:induction false} AnsweredDepth<S(!new), O(!new)>(g: Graph<S, O>, n: nat, s: S, answers: seq<O>)
    requires WellFormed(g) && Answered(g, s, answers) && EvalFrom(g, n, s, []) != Diverges
    ensures EvalFrom(g, n, s, answers) == EvalFrom(g, n, s, [])
    decreases |answers|
  {
    if answers != [] {
      var k := |answers| - 1;
      AnsweredPrefix(g, s, answers, k);
      AnsweredDepth(g, n, s, answers[..k]);
      var t := g.next(s, answers[..k]).step;
      assert Eval(g, n, t) != Diverges;
      EvalMeans(g, n, t);
      assert answers[..k] + [answers[k]] == answers;
    }
  }

  lemma RequestDepth<S(!new), O(!new)>(g: Graph<S, O>, n: nat, s: S, t: S)
    requires WellFormed(g) && Requests(g, s, t) && Eval(g, n, s) != Diverges
    ensures n > 0 && Eval(g, n - 1, t) != Diverges
  {
    var answers :| Answered(g, s, answers) && g.next(s, answers) == Request(t);
    AnsweredDepth(g, n - 1, s, answers);
  }

  /** A step diverges if something it requests does. */
  lemma RequestDiverges<S(!new), O(!new)>(g: Graph<S, O>, s: S, t: S)
    requires WellFormed(g) && Requests(g, s, t) && Means(g, t) == Diverges
    ensures Means(g, s) == Diverges
  {
    forall n: nat ensures Eval(g, n, s) == Diverges {
      if Eval(g, n, s) != Diverges {
        RequestDepth(g, n, s, t);
      }
    }
  }

  // ---- What a finished step has requested ----

  /** Running `s` to its end, one comes to just the requests `ts`, in this order. */
  ghost predicate RequestedInOrder<S(!new), O(!new)>(g: Graph<S, O>, s: S, ts: seq<S>)
    requires WellFormed(g)
  {
    exists all :: RequestedWith(g, s, ts, all)
  }

  ghost predicate RequestedWith<S(!new), O(!new)>(g: Graph<S, O>, s: S, ts: seq<S>, all: seq<O>)
    requires WellFormed(g)
  {
    && Answered(g, s, all) && g.next(s, all).Finish? && |ts| == |all|
    && forall i :: 0 <= i < |all| ==> g.next(s, all[..i]) == Request(ts[i])
  }

  /** True answers are determined by their number. */
  lemma {:induction false} AnsweredUnique<S(!new), O(!new)>(g: Graph<S, O>, s: S, a: seq<O>, b: seq<O>)
    requires WellFormed(g) && Answered(g, s, a) && Answered(g, s, b) && |a| <= |b|
    ensures a == b[..|a|]
  {
    if a != [] {
      var k := |a| - 1;
      AnsweredPrefix(g, s, a, k);
      AnsweredUnique(g, s, a[..k], b);
      assert a[..k] == b[..k];
      assert a == a[..k] + [a[k]] && b[..|a|] == b[..k] + [b[k]];
    }
  }

  lemma RequestIsEarlier<S(!new), O(!new)>(g: Graph<S, O>, s: S, all: seq<O>, answers: seq<O>)
    requires WellFormed(g) && Answered(g, s, all) && Answered(g, s, answers)
    requires g.next(s, all).Finish? && g.next(s, answers).Request?
    ensures |answers| < |all|
  {
    assert answers[..|answers|] == answers;
    if |all| <= |answers| {
      AnsweredUnique(g, s, all, answers);
    }
  }

  /** Whatever a step requests is among the requests of its run, and the other way round. */
  lemma RequestsAreMade<S(!new), O(!new)>(g: Graph<S, O>, s: S, ts: seq<S>, t: S)
    requires WellFormed(g) && RequestedInOrder(g, s, ts)
    ensures Requests(g, s, t) <==> t in ts
  {
    var all :| RequestedWith(g, s, ts, all);
    if Requests(g, s, t) {
      var answers :| Answered(g, s, answers) && g.next(s, answers) == Request(t);
      RequestIsEarlier(g, s, all, answers);
      AnsweredUnique(g, s, answers, all);
      assert g.next(s, all[..|answers|]) == Request(ts[|answers|]);
    }
    if t in ts {
      var i :| 0 <= i < |ts| && ts[i] == t;
      AnsweredPrefix(g, s, all, i);
      assert g.next(s, all[..i]) == Request(t);
    }
  }

  /** If a step goes on as the list `want` says, whatever true answers it has, `want` is what it requests. */
  lemma RequestsAre<S(!new), O(!new)>(g: Graph<S, O>, s: S, ts: seq<S>, want: seq<S>)
    requires WellFormed(g) && RequestedInOrder(g, s, ts)
    requires forall answers :: Answered(g, s, answers) ==> FollowsList(g, s, want, answers)
    ensures ts == want
  {
    var all :| RequestedWith(g, s, ts, all);
    assert FollowsList(g, s, want, all);
    if |want| < |all| {
      RequestIsWanted(g, s, ts, want, all, |want|);
    }
    forall i | 0 <= i < |all| ensures ts[i] == want[i] {
      RequestIsWanted(g, s, ts, want, all, i);
    }
  }

  lemma RequestIsWanted<S(!new), O(!new)>(g: Graph<S, O>, s: S, ts: seq<S>, want: seq<S>, all: seq<O>, i: nat)
    requires WellFormed(g) && RequestedWith(g, s, ts, all) && i < |all|
    requires forall answers :: Answered(g, s, answers) ==> FollowsList(g, s, want, answers)
    ensures i < |want| && ts[i] == want[i]
  {
    AnsweredPrefix(g, s, all, i);
    assert FollowsList(g, s, want, all[..i]);
  }

  ghost predicate FollowsList<S(!new), O(!new)>(g: Graph<S, O>, s: S, want: seq<S>, answers: seq<O>) {
    if |answers| < |want| then g.next(s, answers) == Request(want[|answers|]) else !g.next(s, answers).Request?
  }

  /** A chain of requests leads from `s` to `t`. */
  ghost predicate ReachesStep<S(!new), O(!new)>(g: Graph<S, O>, s: S, t: S)
    requires WellFormed(g)
  {
    exists p :: RequestChain(g, s, t, p)
  }

  ghost predicate RequestChain<S(!new), O(!new)>(g: Graph<S, O>, s: S, t: S, p: seq<S>)
    requires WellFormed(g)
  {
    p != [] && p[0] == s && p[|p| - 1] == t && forall i :: 0 <= i < |p| - 1 ==> Requests(g, p[i], p[i + 1])
  }

  lemma ReachesItself<S(!new), O(!new)>(g: Graph<S, O>, s: S)
    requires WellFormed(g)
    ensures ReachesStep(g, s, s)
  {
    assert RequestChain(g, s, s, [s]);
  }

  lemma ReachesFurther<S(!new), O(!new)>(g: Graph<S, O>, s: S, t: S, x: S)
    requires WellFormed(g) && Requests(g, s, t) && ReachesStep(g, t, x)
    ensures ReachesStep(g, s, x)
  {
    var p :| RequestChain(g, t, x, p);
    var q := [s] + p;
    forall i | 0 <= i < |q| - 1 ensures Requests(g, q[i], q[i + 1]) {
      if i > 0 { assert Requests(g, p[i - 1], p[i - 1 + 1]); }
    }
    assert RequestChain(g, s, x, q);
  }

  lemma {:induction false} ReachedInClosed<S(!new), O(!new)>(g: Graph<S, O>, u: set<S>, s: S, t: S, p: seq<S>)
    requires WellFormed(g) && ClosedUnderRequests(g, u) && s in u && RequestChain(g, s, t, p)
    ensures t in u
    decreases |p|
  {
    if |p| > 1 {
      assert Requests(g, p[0], p[0 + 1]);
      var q := p[1..];
      forall i | 0 <= i < |q| - 1 ensures Requests(g, q[i], q[i + 1]) {
        assert Requests(g, p[i + 1], p[i + 1 + 1]);
      }
      ReachedInClosed(g, u, p[1], t, q);
    }
  }

  // ---- Divergence is a cycle ----

  /** Every element of `p` requests the next one. */
  ghost predicate RequestPath<S(!new), O(!new)>(g: Graph<S, O>, p: seq<S>)
    requires WellFormed(g)
  {
    forall i :: 0 <= i < |p| - 1 ==> Requests(g, p[i], p[i + 1])
  }

  /** Some chain of requests from `s` comes twice to the same step. */
  ghost predicate ReachesCycle<S(!new), O(!new)>(g: Graph<S, O>, s: S)
    requires WellFormed(g)
  {
    exists p: seq<S>, i: nat, j: nat :: CyclicPath(g, s, p, i, j)
  }

  ghost predicate CyclicPath<S(!new), O(!new)>(g: Graph<S, O>, s: S, p: seq<S>, i: nat, j: nat)
    requires WellFormed(g)
  {
    i < j < |p| && p[0] == s && RequestPath(g, p) && p[i] == p[j]
  }

  lemma {:induction false} PathDepth<S(!new), O(!new)>(g: Graph<S, O>, p: seq<S>, i: nat, j: nat, n: nat)
    requires WellFormed(g) && RequestPath(g, p) && i <= j < |p| && Eval(g, n, p[i]) != Diverges
    ensures j - i <= n && Eval(g, n - (j - i), p[j]) != Diverges
    decreases j - i
  {
    if i < j {
      assert Requests(g, p[i], p[i + 1]);
      RequestDepth(g, n, p[i], p[i + 1]);
      PathDepth(g, p, i + 1, j, n - 1);
    }
  }

  lemma {:induction false} CycleTooDeep<S(!new), O(!new)>(g: Graph<S, O>, p: seq<S>, i: nat, j: nat, n: nat)
    requires WellFormed(g) && RequestPath(g, p) && i < j < |p| && p[i] == p[j]
    ensures Eval(g, n, p[i]) == Diverges
    decreases n
  {
    if Eval(g, n, p[i]) != Diverges {
      PathDepth(g, p, i, j, n);
      CycleTooDeep(g, p, i, j, n - (j - i));
    }
  }

  lemma CycleDiverges<S(!new), O(!new)>(g: Graph<S, O>, s: S)
    requires WellFormed(g) && ReachesCycle(g, s)
    ensures Means(g, s) == Diverges
  {
    var p, i: nat, j: nat :| CyclicPath(g, s, p, i, j);
    forall n: nat ensures Eval(g, n, s) == Diverges {
      if Eval(g, n, s) != Diverges {
        PathDepth(g, p, 0, i, n);
        CycleTooDeep(g, p, i, j, n - i);
      }
    }
  }

  /** A diverging step requests a diverging step. */
  lemma {:induction false} DivergingRequest<S(!new), O(!new)>(g: Graph<S, O>, s: S, answers: seq<O>) returns (t: S)
    requires WellFormed(g) && Answered(g, s, answers) && Means(g, s) == Diverges
    ensures Requests(g, s, t) && Means(g, t) == Diverges
    decreases g.limit(s) - |answers|
  {
    RunMeans(g, s, answers);
    t := g.next(s, answers).step;
    if Means(g, t).Value? {
      AnsweredNext(g, s, answers, Means(g, t).out);
      t := DivergingRequest(g, s, answers + [Means(g, t).out]);
    }
  }

  ghost predicate ClosedUnderRequests<S(!new), O(!new)>(g: Graph<S, O>, u: set<S>)
    requires WellFormed(g)
  {
    forall s, t :: s in u && Requests(g, s, t) ==> t in u
  }

  /** From a diverging step there are chains of requests of any length. */
  lemma {:induction false} DivergingPath<S(!new), O(!new)>(g: Graph<S, O>, u: set<S>, s: S, n: nat) returns (p: seq<S>)
    requires WellFormed(g) && ClosedUnderRequests(g, u) && s in u && Means(g, s) == Diverges
    ensures |p| == n + 1 && p[0] == s && RequestPath(g, p) && forall i :: 0 <= i < |p| ==> p[i] in u
    decreases n
  {
    if n == 0 {
      p := [s];
    } else {
      var t := DivergingRequest(g, s, []);
      var q := DivergingPath(g, u, t, n - 1);
      p := [s] + q;
    }
  }

  lemma {:induction false} Pigeonhole<S>(u: set<S>, p: seq<S>) returns (i: nat, j: nat)
    requires |p| > |u| && forall k :: 0 <= k < |p| ==> p[k] in u
    ensures i < j < |p| && p[i] == p[j]
    decreases |p|
  {
    var x, rest := p[0], p[1..];
    if k: nat :| k < |rest| && rest[k] == x {
      i, j := 0, k + 1;
    } else {
      assert forall k :: 0 <= k < |rest| ==> rest[k] in u - {x};
      i, j := Pigeonhole(u - {x}, rest);
      i, j := i + 1, j + 1;
    }
  }

  /** Over finitely many steps, plain recursion diverges exactly when a chain of requests comes back
      to a step. */
  lemma DivergesIffCycle<S(!new), O(!new)>(g: Graph<S, O>, u: set<S>, s: S)
    requires WellFormed(g) && ClosedUnderRequests(g, u) && s in u
    ensures Means(g, s) == Diverges <==> ReachesCycle(g, s)
  {
    if ReachesCycle(g, s) {
      CycleDiverges(g, s);
    }
    if Means(g, s) == Diverges {
      var p := DivergingPath(g, u, s, |u|);
      var i, j := Pigeonhole(u, p);
      assert CyclicPath(g, s, p, i, j);
    }
  }

  // ---- A step that means something reaches finitely many steps ----

  ghost function Reach<S(!new), O(!new)>(g: Graph<S, O>, n: nat, s: S): set<S>
    requires WellFormed(g)
    decreases n, 0, 0
  {
    if n == 0 then {} else {s} + ReachFrom(g, n - 1, s, [])
  }

  ghost function ReachFrom<S(!new), O(!new)>(g: Graph<S, O>, n: nat, s: S, answers: seq<O>): set<S>
    requires WellFormed(g)
    decreases n, 1, g.limit(s) - |answers|
  {
    match g.next(s, answers)
    case Finish(_) => {}
    case Panic(_) => {}
    case Request(t) =>
      var r := Eval(g, n, t);
      Reach(g, n, t) + (if r.Value? then ReachFrom(g, n, s, answers + [r.out]) else {})
  }

  /** All that `x` requests is in its reach. */
  lemma {:induction false} ReachAnswered<S(!new), O(!new)>(g: Graph<S, O>, n: nat, x: S, answers: seq<O>)
    requires WellFormed(g) && Answered(g, x, answers) && EvalFrom(g, n, x, []) != Diverges
    ensures ReachFrom(g, n, x, answers) <= ReachFrom(g, n, x, [])
    decreases |answers|
  {
    if answers != [] {
      var k := |answers| - 1;
      AnsweredPrefix(g, x, answers, k);
      AnsweredDepth(g, n, x, answers[..k]);
      ReachAnswered(g, n, x, answers[..k]);
      var t := g.next(x, answers[..k]).step;
      EvalMeans(g, n, t);
      assert answers[..k] + [answers[k]] == answers;
    }
  }

  lemma ReachRequest<S(!new), O(!new)>(g: Graph<S, O>, n: nat, x: S, t: S)
    requires WellFormed(g) && Eval(g, n, x) != Diverges && Requests(g, x, t)
    ensures t in Reach(g, n, x)
  {
    var answers :| Answered(g, x, answers) && g.next(x, answers) == Request(t);
    RequestDepth(g, n, x, t);
    ReachAnswered(g, n - 1, x, answers);
    assert t in Reach(g, n - 1, t);
  }

  /** Every step in the reach of `s` has its own reach inside. */
  lemma {:induction false} ReachNested<S(!new), O(!new)>(g: Graph<S, O>, n: nat, s: S, x: S) returns (m: nat)
    requires WellFormed(g) && Eval(g, n, s) != Diverges && x in Reach(g, n, s)
    ensures m <= n && Eval(g, m, x) != Diverges && Reach(g, m, x) <= Reach(g, n, s)
    decreases n, 0, 0
  {
    if x == s {
      m := n;
    } else {
      m := ReachFromNested(g, n - 1, s, [], x);
    }
  }

  lemma {:induction false} ReachFromNested<S(!new), O(!new)>(g: Graph<S, O>, n: nat, s: S, answers: seq<O>, x: S)
    returns (m: nat)
    requires WellFormed(g) && EvalFrom(g, n, s, answers) != Diverges && x in ReachFrom(g, n, s, answers)
    ensures m <= n && Eval(g, m, x) != Diverges && Reach(g, m, x) <= ReachFrom(g, n, s, answers)
    decreases n, 1, g.limit(s) - |answers|
  {
    var t := g.next(s, answers).step;
    var r := Eval(g, n, t);
    if x in Reach(g, n, t) {
      m := ReachNested(g, n, t, x);
    } else {
      m := ReachFromNested(g, n, s, answers + [r.out], x);
    }
  }

  /** The finite set of steps that a step with a meaning may ever request. */
  lemma FiniteReach<S(!new), O(!new)>(g: Graph<S, O>, s: S) returns (u: set<S>)
    requires WellFormed(g) && Means(g, s) != Diverges
    ensures s in u && ClosedUnderRequests(g, u)
  {
    var n: nat :| Eval(g, n, s) != Diverges;
    u := Reach(g, n, s);
    forall x, t | x in u && Requests(g, x, t) ensures t in u {
      var m := ReachNested(g, n, s, x);
      ReachRequest(g, m, x, t);
    }
  }

  // ---- Ranked graphs ----

  /** A step with an output has finished with it. */
  lemma {:induction false} ValueFinishes<S(!new), O(!new)>(g: Graph<S, O>, s: S, answers: seq<O>) returns (all: seq<O>)
    requires WellFormed(g) && Answered(g, s, answers) && Means(g, s).Value?
    ensures Answered(g, s, all) && g.next(s, all) == Finish(Means(g, s).out)
    decreases g.limit(s) - |answers|
  {
    RunMeans(g, s, answers);
    all := answers;
    if g.next(s, answers).Request? {
      var t := g.next(s, answers).step;
      assert Requests(g, s, t);
      if Means(g, t) == Diverges { RequestDiverges(g, s, t); }
      AnsweredNext(g, s, answers, Means(g, t).out);
      all := ValueFinishes(g, s, answers + [Means(g, t).out]);
    }
  }

  /** Every request goes to a step of lower rank. */
  ghost predicate RankDescends<S(!new), O(!new)>(g: Graph<S, O>, rank: S -> nat)
    requires WellFormed(g)
  {
    forall s, t :: Requests(g, s, t) ==> rank(t) < rank(s)
  }

  /** `good` steps request only good steps, and panic only with messages in `known`. */
  ghost predicate PanicsOnlyWith<S(!new), O(!new)>(g: Graph<S, O>, good: S -> bool, known: set<string>)
    requires WellFormed(g)
  {
    && (forall s, t :: good(s) && Requests(g, s, t) ==> good(t))
    && (forall s, answers :: good(s) && Answered(g, s, answers) && g.next(s, answers).Panic? ==>
          g.next(s, answers).message in known)
  }

  /** In a ranked graph recursion ends, and from a good step it ends with an output or a known panic. */
  lemma {:induction false} RankedEnds<S(!new), O(!new)>(g: Graph<S, O>, rank: S -> nat, good: S -> bool,
                                                        known: set<string>, s: S, answers: seq<O>)
    requires WellFormed(g) && RankDescends(g, rank) && PanicsOnlyWith(g, good, known) && Answered(g, s, answers)
    ensures Means(g, s) != Diverges
    ensures good(s) ==> Means(g, s).Value? || Means(g, s).message in known
    decreases rank(s), g.limit(s) - |answers|
  {
    RunMeans(g, s, answers);
    if g.next(s, answers).Request? {
      var t := g.next(s, answers).step;
      assert Requests(g, s, t);
      RankedEnds(g, rank, good, known, t, []);
      if Means(g, t).Value? {
        AnsweredNext(g, s, answers, Means(g, t).out);
        RankedEnds(g, rank, good, known, s, answers + [Means(g, t).out]);
      }
    }
  }

  /** What holds of a step and is passed on by its requests holds all along a chain of requests. */
  lemma {:induction false} AlongPath<S(!new), O(!new)>(g: Graph<S, O>, good: S -> bool, p: seq<S>, i: nat)
    requires WellFormed(g) && RequestPath(g, p) && i < |p| && good(p[0])
    requires forall s, t :: good(s) && Requests(g, s, t) ==> good(t)
    ensures good(p[i])
  {
    if i > 0 {
      AlongPath(g, good, p, i - 1);
      assert Requests(g, p[i - 1], p[i - 1 + 1]);
    }
  }
}

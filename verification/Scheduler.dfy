/** `Builder::ensure`: evaluation of build steps with a cache, a call stack that detects cycles, the
    current parent node, and the time that each step spends on its own. */
module Scheduler {
  import opened StepGraph
  import opened Options

  /** How a call of `ensure` ends: with an output, or with one of two panics. */
  datatype Outcome<+O> = Done(out: O) | CycleDetected | StepPanicked(message: string)

  function OutcomeOf<O>(m: Meaning<O>): Outcome<O> {
    match m
    case Value(o) => Done(o)
    case Diverges => CycleDetected
    case Panics(m) => StepPanicked(m)
  }

  ghost predicate Distinct<S>(s: seq<S>) {
    forall i, j :: 0 <= i < j < |s| ==> s[i] != s[j]
  }

  ghost function Elements<S>(s: seq<S>): set<S> { set x | x in s }

  ghost function Total<S>(timings: seq<(S, nat)>): nat {
    if timings == [] then 0 else Total(timings[..|timings| - 1]) + timings[|timings| - 1].1
  }

  lemma {:induction false} TotalAdds<S>(a: seq<(S, nat)>, b: seq<(S, nat)>)
    ensures Total(a + b) == Total(a) + Total(b)
  {
    if b == [] {
      assert a + b == a;
    } else {
      assert (a + b)[..|a + b| - 1] == a + b[..|b| - 1];
      TotalAdds(a, b[..|b| - 1]);
    }
  }

  lemma {:induction false} DistinctFits<S>(s: seq<S>, u: set<S>)
    requires Distinct(s) && forall i :: 0 <= i < |s| ==> s[i] in u
    ensures |s| <= |u|
  {
    if s != [] {
      var last := s[|s| - 1];
      var rest := s[..|s| - 1];
      assert forall i :: 0 <= i < |rest| ==> rest[i] == s[i] && rest[i] in u - {last};
      DistinctFits(rest, u - {last});
    }
  }

  /** A cached step made just the requests of its run, each once and in order, and all are cached. */
  ghost predicate Recorded<S(!new), O(!new)>(g: Graph<S, O>, cache: map<S, O>, made: map<S, seq<S>>, s: S)
    requires WellFormed(g)
  {
    s in made && RequestedInOrder(g, s, made[s]) && forall t :: t in made[s] ==> t in cache
  }

  /** The steps on the stack are being run, each requested by the one below it; those in the cache
      have been run and are stored with their true output; and these are all that ever ran, each of
      them once. `made` holds the requests that each of them has made. */
  ghost predicate Consistent<S(!new), O(!new)>(g: Graph<S, O>, stack: seq<S>, cache: map<S, O>, ran: seq<S>,
                                               made: map<S, seq<S>>)
    requires WellFormed(g)
  {
    && Distinct(stack) && RequestPath(g, stack)
    && (forall s :: s in cache ==> Means(g, s) == Value(cache[s]) && Recorded(g, cache, made, s))
    && cache.Keys !! Elements(stack)
    && Distinct(ran) && Elements(ran) == cache.Keys + Elements(stack) && made.Keys == Elements(ran)
  }

  lemma PushConsistent<S(!new), O(!new)>(g: Graph<S, O>, stack: seq<S>, cache: map<S, O>, ran: seq<S>,
                                         made: map<S, seq<S>>, step: S)
    requires WellFormed(g) && Consistent(g, stack, cache, ran, made) && step !in stack && step !in cache
    requires stack != [] ==> Requests(g, stack[|stack| - 1], step)
    ensures step !in ran && Consistent(g, stack + [step], cache, ran + [step], made[step := []])
  {
    assert Elements(stack + [step]) == Elements(stack) + {step};
    assert Elements(ran + [step]) == Elements(ran) + {step};
    assert step !in Elements(ran);
    forall s | s in cache ensures Recorded(g, cache, made[step := []], s) {
      assert Recorded(g, cache, made, s);
    }
  }

  lemma PopConsistent<S(!new), O(!new)>(g: Graph<S, O>, stack: seq<S>, cache: map<S, O>, ran: seq<S>,
                                        made: map<S, seq<S>>, step: S, out: O)
    requires WellFormed(g) && Consistent(g, stack + [step], cache, ran, made) && Means(g, step) == Value(out)
    requires Recorded(g, cache, made, step)
    ensures step !in cache && Consistent(g, stack, cache[step := out], ran, made)
  {
    var top := stack + [step];
    assert Elements(top) == Elements(stack) + {step};
    assert top[|stack|] == step && forall i :: 0 <= i < |stack| ==> top[i] == stack[i];
    assert step !in Elements(stack);
    forall i | 0 <= i < |stack| - 1 ensures Requests(g, stack[i], stack[i + 1]) {
      assert Requests(g, top[i], top[i + 1]);
    }
    var more := cache[step := out];
    forall s | s in more ensures Recorded(g, more, made, s) {
      assert Recorded(g, cache, made, s);
    }
  }

  /** The step that is being run asks for another one. */
  lemma NoteConsistent<S(!new), O(!new)>(g: Graph<S, O>, stack: seq<S>, cache: map<S, O>, ran: seq<S>,
                                         made: map<S, seq<S>>, step: S)
    requires WellFormed(g) && Consistent(g, stack, cache, ran, made) && stack != []
    ensures var top := stack[|stack| - 1];
            top in made && Consistent(g, stack, cache, ran, made[top := made[top] + [step]])
  {
    var top := stack[|stack| - 1];
    assert top in Elements(stack);
    forall s | s in cache ensures Recorded(g, cache, made[top := made[top] + [step]], s) {
      assert Recorded(g, cache, made, s);
    }
  }

  /** All that a cached step requests is cached, and so is all that can be reached from it. */
  lemma CacheIsClosed<S(!new), O(!new)>(g: Graph<S, O>, stack: seq<S>, cache: map<S, O>, ran: seq<S>,
                                        made: map<S, seq<S>>)
    requires WellFormed(g) && Consistent(g, stack, cache, ran, made)
    ensures ClosedUnderRequests(g, cache.Keys)
    ensures forall s, t :: s in cache && ReachesStep(g, s, t) ==> t in cache
  {
    forall s, t | s in cache.Keys && Requests(g, s, t) ensures t in cache.Keys {
      assert Recorded(g, cache, made, s);
      RequestsAreMade(g, s, made[s], t);
    }
    forall s, t | s in cache && ReachesStep(g, s, t) ensures t in cache {
      var p :| RequestChain(g, s, t, p);
      ReachedInClosed(g, cache.Keys, s, t, p);
    }
  }

  /** The steps run since `ran0` are those newly cached, which are those that `step` reaches. */
  ghost predicate RanJust<S(!new), O(!new)>(g: Graph<S, O>, step: S, ran0: seq<S>, cache0: map<S, O>,
                                            ran: seq<S>, cache: map<S, O>)
    requires WellFormed(g)
  {
    && ran0 <= ran
    && (forall t :: t in ran[|ran0|..] <==> t in cache && t !in cache0)
    && (forall t :: t in cache <==> t in cache0 || ReachesStep(g, step, t))
  }

  /** The same while `step` itself is being run. */
  ghost predicate RanSoFar<S(!new), O(!new)>(g: Graph<S, O>, step: S, ran0: seq<S>, cache0: map<S, O>,
                                             ran: seq<S>, cache: map<S, O>)
    requires WellFormed(g)
  {
    && ran0 <= ran
    && (forall t :: t in ran[|ran0|..] <==> t == step || (t in cache && t !in cache0))
    && (forall t :: t in cache0 ==> t in cache)
    && (forall t :: t in cache ==> t in cache0 || ReachesStep(g, step, t))
  }

  lemma RanSoFarGoesOn<S(!new), O(!new)>(g: Graph<S, O>, step: S, t: S, ran0: seq<S>, cache0: map<S, O>,
                                         ran1: seq<S>, cache1: map<S, O>, ran2: seq<S>, cache2: map<S, O>)
    requires WellFormed(g) && Requests(g, step, t)
    requires RanSoFar(g, step, ran0, cache0, ran1, cache1) && RanJust(g, t, ran1, cache1, ran2, cache2)
    ensures RanSoFar(g, step, ran0, cache0, ran2, cache2)
  {
    assert ran2[|ran0|..] == ran1[|ran0|..] + ran2[|ran1|..];
    forall x | x in cache2 && x !in cache0 ensures ReachesStep(g, step, x) {
      if x !in cache1 { ReachesFurther(g, step, t, x); }
    }
  }

  lemma RanToTheEnd<S(!new), O(!new)>(g: Graph<S, O>, step: S, out: O, ran0: seq<S>, cache0: map<S, O>,
                                      stack: seq<S>, ran: seq<S>, cache: map<S, O>, made: map<S, seq<S>>)
    requires WellFormed(g) && RanSoFar(g, step, ran0, cache0, ran, cache) && step !in cache0
    requires Consistent(g, stack, cache[step := out], ran, made)
    ensures RanJust(g, step, ran0, cache0, ran, cache[step := out])
  {
    ReachesItself(g, step);
    CacheIsClosed(g, stack, cache[step := out], ran, made);
  }

  /** The requests made so far are those that lead to these answers, and they are cached. */
  ghost predicate Asked<S(!new), O(!new)>(g: Graph<S, O>, step: S, answers: seq<O>, cache: map<S, O>, asked: seq<S>) {
    |asked| == |answers| && forall i :: 0 <= i < |asked| ==> AskedAt(g, step, answers, cache, asked[i], i)
  }

  ghost predicate AskedAt<S(!new), O(!new)>(g: Graph<S, O>, step: S, answers: seq<O>, cache: map<S, O>, t: S, i: nat)
    requires i < |answers|
  {
    g.next(step, answers[..i]) == Request(t) && t in cache
  }

  lemma AskedNext<S(!new), O(!new)>(g: Graph<S, O>, step: S, answers: seq<O>, cache1: map<S, O>, cache2: map<S, O>,
                                    asked: seq<S>, t: S, o: O)
    requires Asked(g, step, answers, cache1, asked) && g.next(step, answers) == Request(t)
    requires (forall s :: s in cache1 ==> s in cache2) && t in cache2
    ensures Asked(g, step, answers + [o], cache2, asked + [t])
  {
    var a, b := answers + [o], asked + [t];
    forall i | 0 <= i < |b| ensures AskedAt(g, step, a, cache2, b[i], i) {
      if i < |asked| {
        assert AskedAt(g, step, answers, cache1, asked[i], i);
        assert a[..i] == answers[..i];
      } else {
        assert a[..i] == answers;
      }
    }
  }

  lemma AskedIsRecorded<S(!new), O(!new)>(g: Graph<S, O>, step: S, answers: seq<O>, cache: map<S, O>,
                                          made: map<S, seq<S>>)
    requires WellFormed(g) && step in made && Asked(g, step, answers, cache, made[step])
    requires Answered(g, step, answers) && g.next(step, answers).Finish?
    ensures Recorded(g, cache, made, step)
  {
    forall i | 0 <= i < |answers| ensures g.next(step, answers[..i]) == Request(made[step][i]) {
      assert AskedAt(g, step, answers, cache, made[step][i], i);
    }
    assert RequestedWith(g, step, made[step], answers);
    forall t | t in made[step] ensures t in cache {
      var i :| 0 <= i < |made[step]| && made[step][i] == t;
      assert AskedAt(g, step, answers, cache, t, i);
    }
  }

  class Builder<S(!new, ==), O(!new)> {
    const graph: Graph<S, O>
    /** The `Debug` text of a step, by which the nodes of the build graph are found. */
    const nodeName: S -> string
    var stack: seq<S>
    var cache: map<S, O>
    var parent: Option<string>
    var timeSpentOnDependencies: nat
    /** What `Instant::now` reads. It only ever moves forward. */
    var clock: nat
    /** The steps whose `run` was entered, in order. */
    ghost var ran: seq<S>
    /** The requests that each of them has made, in order. */
    ghost var made: map<S, seq<S>>
    /** The steps that were completed, each with its own time. */
    ghost var timings: seq<(S, nat)>

    ghost predicate Valid()
      reads this
    {
      WellFormed(graph) && Consistent(graph, stack, cache, ran, made)
    }

    constructor (graph: Graph<S, O>, nodeName: S -> string)
      requires WellFormed(graph)
      ensures Valid() && stack == [] && cache == map[] && parent == None && ran == [] && timings == []
      ensures made == map[]
      ensures timeSpentOnDependencies == 0
      ensures this.graph == graph && this.nodeName == nodeName
    {
      this.graph, this.nodeName := graph, nodeName;
      stack, cache, parent := [], map[], None;
      timeSpentOnDependencies, clock := 0, 0;
      ran, timings, made := [], [], map[];
    }

    /** Time passes. */
    method Tick()
      modifies this`clock
      ensures clock >= old(clock)
    {
      var d :| d >= 0;
      clock := clock + d;
    }

    /** `Cache::put`, with its assertion that the step was not processed before. */
    method CachePut(step: S, out: O)
      requires step !in cache
      modifies this`cache
      ensures cache == old(cache)[step := out]
    {
      cache := cache[step := out];
    }

    /** The scan of the stack at the beginning of `ensure`. */
    method OnStack(step: S) returns (found: bool)
      ensures found <==> step in stack
    {
      for i := 0 to |stack|
        invariant step !in stack[..i]
      {
        if stack[i] == step {
          return true;
        }
      }
      return false;
    }

    /** What `ensure` may be called with: the steps it may reach are among the finite set `u`, and a
        step that is being run calls it only for what it requests. */
    ghost predicate MayEnsure(step: S, u: set<S>)
      requires Valid()
      reads this
    {
      && step in u && ClosedUnderRequests(graph, u) && (forall i :: 0 <= i < |stack| ==> stack[i] in u)
      && (stack != [] ==> Requests(graph, stack[|stack| - 1], step))
    }

    /** What every call leaves behind, even one that panics: a consistent builder, in which steps may be
        left on the stack, and which has forgotten nothing. */
    twostate predicate Grows()
      reads this
    {
      && Valid() && old(stack) <= stack
      && (forall s :: s in old(cache) ==> s in cache && cache[s] == old(cache)[s])
      && old(ran) <= ran && old(timings) <= timings && old(clock) <= clock
    }

    /** What earlier steps have requested is still on record. */
    twostate predicate KeepsRecord()
      reads this
    {
      forall s :: s in old(made) ==> s in made && made[s] == old(made)[s]
    }

    /** What a call leaves behind when it has an output. */
    twostate predicate Extends()
      reads this
    {
      && Grows() && stack == old(stack) && parent == old(parent)
      && old(timeSpentOnDependencies) <= timeSpentOnDependencies
      && timeSpentOnDependencies - old(timeSpentOnDependencies) <= clock - old(clock)
      && Total(timings) - Total(old(timings)) == timeSpentOnDependencies - old(timeSpentOnDependencies)
    }

    /** `Builder::ensure`. It always returns, with what plain recursion comes to; and where plain
        recursion would not come to an end, because a chain of requests comes back to a step, it reports
        a cycle. `began` is when the step was started: the own times of all steps run since then sum to
        the duration of the call. */
    method Ensure(step: S, ghost u: set<S>) returns (r: Outcome<O>, ghost began: nat)
      requires Valid() && MayEnsure(step, u)
      modifies this
      ensures r == OutcomeOf(Means(graph, step)) && Grows()
      ensures r == CycleDetected <==> ReachesCycle(graph, step)
      ensures r.Done? ==> Extends() && step in cache && cache[step] == r.out
      ensures r.Done? ==> KeepsRecord() && RanJust(graph, step, old(ran), old(cache), ran, cache)
      ensures r.Done? && step in old(cache) ==>
                ran == old(ran) && made == old(made) && timings == old(timings) && cache == old(cache)
                && timeSpentOnDependencies == old(timeSpentOnDependencies)
      ensures r.Done? && step !in old(cache) ==>
                && old(clock) <= began <= clock
                && Total(timings) - Total(old(timings)) == clock - began
      decreases |u| - |stack|, 1
    {
      began := clock;
      DivergesIffCycle(graph, u, step);
      CacheIsClosed(graph, stack, cache, ran, made);
      var found := OnStack(step);
      if found {
        StackCycle(graph, stack, step);
        return CycleDetected, began;
      }
      if step in cache {
        ReachesItself(graph, step);
        return Done(cache[step]), began;
      }
      r, began := RunAndCache(step, u);
    }

    /** The rest of `ensure`, for a step that is neither being run nor cached. */
    method RunAndCache(step: S, ghost u: set<S>) returns (r: Outcome<O>, ghost began: nat)
      requires Valid() && MayEnsure(step, u) && step !in stack && step !in cache
      modifies this
      ensures r == OutcomeOf(Means(graph, step)) && Grows()
      ensures r.Done? ==> Extends() && step in cache && cache[step] == r.out
      ensures r.Done? ==> KeepsRecord() && RanJust(graph, step, old(ran), old(cache), ran, cache)
      ensures r.Done? ==> old(clock) <= began <= clock && Total(timings) - Total(old(timings)) == clock - began
      decreases |u| - |stack|, 0
    {
      var prevParent, saved := parent, timeSpentOnDependencies;
      Begin(step);
      var start := clock;
      began := clock;
      PushFits(old(stack), step, u);
      r := Run(step, u, old(stack));
      if r.Done? {
        ghost var cached := cache;
        Complete(step, r.out, prevParent, start, saved, old(stack));
        RanToTheEnd(graph, step, r.out, old(ran), old(cache), stack, ran, cached, made);
      }
    }

    /** The part of `ensure` before the step is run. */
    method Begin(step: S)
      requires Valid() && step !in stack && step !in cache
      modifies this`stack, this`parent, this`clock, this`timeSpentOnDependencies
      ensures stack == old(stack) + [step] && parent == Some(nodeName(step))
      ensures clock >= old(clock) && timeSpentOnDependencies == 0
    {
      stack := stack + [step];
      parent := Some(nodeName(step));
      Tick();
      timeSpentOnDependencies := 0;
    }

    /** Takes the time of the step that was started at `start`. The subtraction does not underflow. */
    method StopClock(step: S, start: nat, saved: nat)
      requires start <= clock && timeSpentOnDependencies <= clock - start
      modifies this`clock, this`timings, this`timeSpentOnDependencies
      ensures clock >= old(clock)
      ensures timeSpentOnDependencies == saved + (clock - start)
      ensures timings == old(timings) + [(step, clock - start - old(timeSpentOnDependencies))]
      ensures Total(timings) == Total(old(timings)) + (clock - start - old(timeSpentOnDependencies))
    {
      Tick();
      var dur := clock - start;
      var deps := timeSpentOnDependencies;
      timeSpentOnDependencies := saved + dur;
      var own: nat := dur - deps;
      TotalAdds(timings, [(step, own)]);
      timings := timings + [(step, own)];
    }

    /** The part of `ensure` after the step was run. Neither the check of what is popped nor the
        assertion of the cache can fail. */
    method Complete(step: S, out: O, prevParent: Option<string>, start: nat, saved: nat, ghost below: seq<S>)
      requires Valid() && stack == below + [step] && Means(graph, step) == Value(out)
      requires Recorded(graph, cache, made, step)
      requires start <= clock && timeSpentOnDependencies <= clock - start
      modifies this
      ensures Valid() && stack == below && cache == old(cache)[step := out]
      ensures parent == prevParent && ran == old(ran) && made == old(made) && clock >= old(clock)
      ensures timeSpentOnDependencies == saved + (clock - start)
      ensures timings == old(timings) + [(step, clock - start - old(timeSpentOnDependencies))]
      ensures Total(timings) == Total(old(timings)) + (clock - start - old(timeSpentOnDependencies))
    {
      StopClock(step, start, saved);
      parent := prevParent;
      var curStep := stack[|stack| - 1];
      assert curStep == step;
      stack := stack[..|stack| - 1];
      PopConsistent(graph, stack, cache, ran, made, step, out);
      CachePut(step, out);
    }

    /** `step.run(self)`, for the step on top of the stack. It is entered only for a step that never ran
        before, and leaves a record of the requests that it made. */
    method Run(step: S, ghost u: set<S>, ghost below: seq<S>) returns (r: Outcome<O>)
      requires WellFormed(graph) && Consistent(graph, below, cache, ran, made) && stack == below + [step]
      requires step !in below && step !in cache && (below != [] ==> Requests(graph, below[|below| - 1], step))
      requires ClosedUnderRequests(graph, u) && forall i :: 0 <= i < |stack| ==> stack[i] in u
      requires timeSpentOnDependencies == 0
      modifies this
      ensures r == OutcomeOf(Means(graph, step)) && Grows()
      ensures r.Done? ==> Extends() && Recorded(graph, cache, made, step) && KeepsRecord()
      ensures r.Done? ==> RanSoFar(graph, step, old(ran), old(cache), ran, cache)
      decreases |u| - |stack|, 3
    {
      Enter(step, below);
      var answers: seq<O> := [];
      while true
        invariant Extends() && KeepsRecord() && Answered(graph, step, answers)
        invariant step in made && Asked(graph, step, answers, cache, made[step])
        invariant RanSoFar(graph, step, old(ran), old(cache), ran, cache)
        decreases graph.limit(step) - |answers|
      {
        RunMeans(graph, step, answers);
        match graph.next(step, answers)
        case Finish(o) =>
          AskedIsRecorded(graph, step, answers, cache, made);
          return Done(o);
        case Panic(m) => return StepPanicked(m);
        case Request(t) =>
          ghost var ran1, cache1 := ran, cache;
          r := Ask(step, t, u, answers);
          if !r.Done? {
            return;
          }
          RanSoFarGoesOn(graph, step, t, old(ran), old(cache), ran1, cache1, ran, cache);
          answers := answers + [r.out];
      }
    }

    /** Records that the body of `run` is entered. */
    ghost method Enter(step: S, below: seq<S>)
      requires WellFormed(graph) && Consistent(graph, below, cache, ran, made) && stack == below + [step]
      requires step !in below && step !in cache && (below != [] ==> Requests(graph, below[|below| - 1], step))
      modifies this`ran, this`made
      ensures Valid() && ran == old(ran) + [step] && KeepsRecord()
      ensures step !in old(made) && step in made && made[step] == []
    {
      PushConsistent(graph, below, cache, ran, made, step);
      ran, made := ran + [step], made[step := []];
    }

    /** A request made by the `run` of the step on top of the stack. */
    method Ask(step: S, t: S, ghost u: set<S>, ghost answers: seq<O>) returns (r: Outcome<O>)
      requires Valid() && stack != [] && stack[|stack| - 1] == step && step in made
      requires ClosedUnderRequests(graph, u) && forall i :: 0 <= i < |stack| ==> stack[i] in u
      requires Answered(graph, step, answers) && graph.next(step, answers) == Request(t)
      requires Asked(graph, step, answers, cache, made[step])
      modifies this
      ensures Grows()
      ensures r.Done? ==> Means(graph, t) == Value(r.out)
      ensures !r.Done? ==> r == OutcomeOf(Means(graph, step))
      ensures r.Done? ==> Extends() && RanJust(graph, t, old(ran), old(cache), ran, cache)
      ensures r.Done? ==> step in made && Asked(graph, step, answers + [r.out], cache, made[step])
      ensures r.Done? ==> forall s :: s in old(made) && s != step ==> s in made && made[s] == old(made)[s]
      ensures r.Done? ==> Answered(graph, step, answers + [r.out])
      decreases |u| - |stack|, 2
    {
      assert Requests(graph, step, t);
      ghost var asked, cache0 := made[step], cache;
      NoteRequest(t);
      ghost var began;
      r, began := Ensure(t, u);
      if r.Done? {
        AnsweredNext(graph, step, answers, r.out);
        AskedNext(graph, step, answers, cache0, cache, asked, t, r.out);
      } else if r == CycleDetected {
        RequestDiverges(graph, step, t);
      } else {
        RunMeans(graph, step, answers);
      }
    }

    /** Records a request of the step on top of the stack. */
    ghost method NoteRequest(t: S)
      requires Valid() && stack != []
      modifies this`made
      ensures var step := stack[|stack| - 1];
              && Valid() && step in old(made) && step in made && made[step] == old(made)[step] + [t]
              && forall s :: s in old(made) && s != step ==> s in made && made[s] == old(made)[s]
    {
      NoteConsistent(graph, stack, cache, ran, made, t);
      var step := stack[|stack| - 1];
      made := made[step := made[step] + [t]];
    }
  }

  lemma PushFits<S>(stack: seq<S>, step: S, u: set<S>)
    requires Distinct(stack) && step !in stack && step in u && forall i :: 0 <= i < |stack| ==> stack[i] in u
    ensures |stack + [step]| <= |u| && forall i :: 0 <= i < |stack + [step]| ==> (stack + [step])[i] in u
  {
    DistinctFits(stack + [step], u);
  }

  /** A step found on the stack requests itself by way of the steps above it. */
  lemma StackCycle<S(!new), O(!new)>(g: Graph<S, O>, stack: seq<S>, step: S)
    requires WellFormed(g) && RequestPath(g, stack) && step in stack
    requires Requests(g, stack[|stack| - 1], step)
    ensures Means(g, step) == Diverges
  {
    var i :| 0 <= i < |stack| && stack[i] == step;
    var p := stack[i..] + [step];
    forall k | 0 <= k < |p| - 1 ensures Requests(g, p[k], p[k + 1]) {
      if k + 1 < |stack[i..]| {
        assert Requests(g, stack[i + k], stack[i + k + 1]);
      }
    }
    assert CyclicPath(g, step, p, 0, |p| - 1);
    CycleDiverges(g, step);
  }
}

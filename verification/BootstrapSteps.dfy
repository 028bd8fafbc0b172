/** The steps that build the compiler and its libraries, and what their `run` bodies request. */
module BootstrapSteps {
  import opened StepGraph
  import opened Scheduler
  import opened Options

  type Triple = string

  datatype Compiler = Compiler(stage: nat, host: Triple)

  /** The parts of the configuration that decide which steps are requested. `llvmReady` stands for
      a custom LLVM of the target, or one that is already built. */
  datatype Config = Config(
    build: Triple,
    hosts: set<Triple>,
    fullBootstrap: bool,
    keepStage: set<nat>,
    backends: seq<string>,
    lldEnabled: bool,
    sanitizers: bool,
    dryRun: bool,
    noStd: set<Triple>,
    windowsGnu: set<Triple>,
    llvmReady: set<Triple>
  )

  datatype Step =
    | Assemble(target_compiler: Compiler)
    | Std(compiler: Compiler, target: Triple)
    | Rustc(compiler: Compiler, target: Triple)
    | CodegenBackend(compiler: Compiler, target: Triple, backend: string)
    | StdLink(compiler: Compiler, target_compiler: Compiler, target: Triple)
    | RustcLink(compiler: Compiler, target_compiler: Compiler, target: Triple)
    | StartupObjects(compiler: Compiler, target: Triple)
    | Libdir(compiler: Compiler, target: Triple)
    | Sysroot(compiler: Compiler)
    | Llvm(target: Triple)
    | Lld(target: Triple)

  /** What a step puts out: a compiler, or something that no other step looks at. */
  datatype Output = Built(compiler: Compiler) | Other

  /** Whether artifacts are lifted from stage 1 instead of being built once more. */
  predicate ForceUseStage1(c: Config, compiler: Compiler, target: Triple) {
    !c.fullBootstrap && compiler.stage >= 2 && (target in c.hosts || target == c.build)
  }

  /** The step behind `compiler_for`. */
  function CompilerFor(c: Config, compiler: Compiler, target: Triple): Step {
    if ForceUseStage1(c, compiler, target) then Assemble(Compiler(1, c.build)) else Assemble(compiler)
  }

  /** The compiler that the `i`-th request has put out. */
  function AnswerAt(answers: seq<Output>, i: nat): Compiler {
    if i < |answers| && answers[i].Built? then answers[i].compiler else Compiler(0, "")
  }

  /** What `Builder::cargo` requests; the same request made twice is listed once. */
  function CargoRequests(compiler: Compiler): seq<Step> {
    [Libdir(compiler, compiler.host), Sysroot(compiler)]
  }

  function BackendRequests(compiler: Compiler, target: Triple, backends: seq<string>): (r: seq<Step>)
    ensures |r| == |backends|
    ensures forall i :: 0 <= i < |backends| ==> r[i] == CodegenBackend(compiler, target, backends[i])
  {
    seq(|backends|, i requires 0 <= i < |backends| => CodegenBackend(compiler, target, backends[i]))
  }

  function AssembleScript(c: Config, tc: Compiler, answers: seq<Output>): seq<Step> {
    if tc.stage == 0 then []
    else
      var bc := AnswerAt(answers, 0);
      [Assemble(Compiler(tc.stage - 1, c.build)), Rustc(bc, tc.host)]
      + BackendRequests(bc, tc.host, c.backends)
      + (if c.lldEnabled then [Lld(tc.host)] else [])
      + [Sysroot(tc), Libdir(bc, tc.host), Libdir(tc, tc.host)]
  }

  function StdScript(c: Config, compiler: Compiler, target: Triple, answers: seq<Output>): seq<Step> {
    if compiler.stage in c.keepStage then [StdLink(compiler, compiler, target)]
    else
      var begin := [StartupObjects(compiler, target), CompilerFor(c, compiler, target)];
      if |answers| < 2 then begin
      else if AnswerAt(answers, 1) != compiler then
        begin + [Std(AnswerAt(answers, 1), target), Libdir(compiler, target),
                 StdLink(AnswerAt(answers, 1), compiler, target)]
      else
        var middle := begin + [Libdir(compiler, target)] + CargoRequests(compiler)
                      + (if target !in c.noStd && compiler.stage != 0 && c.sanitizers then [Llvm(c.build)] else [])
                      + [Assemble(Compiler(compiler.stage, c.build))];
        middle + [StdLink(AnswerAt(answers, |middle| - 1), compiler, target)]
  }

  function RustcScript(c: Config, compiler: Compiler, target: Triple, answers: seq<Output>): seq<Step> {
    if compiler.stage in c.keepStage then [Std(compiler, target), RustcLink(compiler, compiler, target)]
    else
      var begin := [Std(compiler, target), CompilerFor(c, compiler, target)];
      if |answers| < 2 then begin
      else if AnswerAt(answers, 1) != compiler then
        begin + [Rustc(AnswerAt(answers, 1), target), RustcLink(AnswerAt(answers, 1), compiler, target)]
      else
        begin + [Assemble(Compiler(compiler.stage, c.build)), Std(AnswerAt(answers, 2), c.build)]
        + CargoRequests(compiler)
        + [Assemble(Compiler(compiler.stage, c.build)), RustcLink(AnswerAt(answers, 6), compiler, target)]
  }

  const KNOWN_BACKEND := "llvm"

  function CodegenScript(c: Config, compiler: Compiler, target: Triple, backend: string, answers: seq<Output>)
    : seq<Step>
  {
    if compiler.stage in c.keepStage then [Rustc(compiler, target)]
    else
      var begin := [Rustc(compiler, target), CompilerFor(c, compiler, target)];
      if |answers| < 2 then begin
      else if AnswerAt(answers, 1) != compiler then begin + [CodegenBackend(AnswerAt(answers, 1), target, backend)]
      else begin + CargoRequests(compiler) + (if backend == KNOWN_BACKEND then [Llvm(target)] else [])
  }

  /** The requests of a step, as far as they are decided by the outputs received so far. */
  function Script(c: Config, s: Step, answers: seq<Output>): seq<Step> {
    match s
    case Assemble(tc) => AssembleScript(c, tc, answers)
    case Std(compiler, target) => StdScript(c, compiler, target, answers)
    case Rustc(compiler, target) => RustcScript(c, compiler, target, answers)
    case CodegenBackend(compiler, target, backend) => CodegenScript(c, compiler, target, backend, answers)
    case StdLink(compiler, tc, target) => [Libdir(tc, target), Libdir(tc, compiler.host)]
    case RustcLink(compiler, tc, target) => [Libdir(tc, target), Libdir(tc, compiler.host)]
    case StartupObjects(compiler, target) => if target in c.windowsGnu then [Libdir(compiler, target)] else []
    case Libdir(compiler, target) => [Sysroot(compiler)]
    case Sysroot(compiler) => []
    case Llvm(target) => if target in c.llvmReady || target == c.build then [] else [Llvm(c.build)]
    case Lld(target) => if c.dryRun then [] else [Llvm(target)]
  }

  /** The assertion that a stage 0 compiler is one for the build machine. */
  const STAGE_ZERO := "stage 0 compiler for another host"

  const UNKNOWN_BACKEND := "unknown backend"

  /** How a step ends once its requests are answered. */
  function End(c: Config, s: Step, answers: seq<Output>): Action<Step, Output> {
    match s
    case Assemble(tc) => if tc.stage == 0 && tc.host != c.build then Panic(STAGE_ZERO) else Finish(Built(tc))
    case CodegenBackend(compiler, _, backend) =>
      if compiler.stage !in c.keepStage && AnswerAt(answers, 1) == compiler && backend != KNOWN_BACKEND
      then Panic(UNKNOWN_BACKEND) else Finish(Other)
    case _ => Finish(Other)
  }

  function Next(c: Config): (Step, seq<Output>) -> Action<Step, Output> {
    (s: Step, answers: seq<Output>) =>
      var script := Script(c, s, answers);
      if |answers| < |script| then Request(script[|answers|]) else End(c, s, answers)
  }

  function BootstrapGraph(c: Config): Graph<Step, Output> {
    Graph(Next(c), (s: Step) => 10 + |c.backends|)
  }

  lemma GraphWellFormed(c: Config)
    ensures WellFormed(BootstrapGraph(c))
  {
  }

  /** Stages come first, then the kind of step; whatever does not depend on a stage comes last. */
  function Rank(c: Config, s: Step): nat {
    match s
    case Assemble(tc) => 8 * tc.stage + 4
    case Std(compiler, _) => 8 * compiler.stage + 5
    case Rustc(compiler, _) => 8 * compiler.stage + 6
    case CodegenBackend(compiler, _, _) => 8 * compiler.stage + 7
    case StdLink(_, _, _) => 2
    case RustcLink(_, _, _) => 2
    case StartupObjects(_, _) => 2
    case Libdir(_, _) => 1
    case Sysroot(_) => 0
    case Llvm(target) => if target == c.build then 0 else 1
    case Lld(_) => 2
  }

  /** There is such a compiler: it is built by us, or downloaded for the build machine. */
  predicate Obtainable(c: Config, compiler: Compiler) {
    compiler.stage >= 1 || compiler.host == c.build
  }

  /** The compiler that a step is for can be had. */
  predicate Buildable(c: Config, s: Step) {
    match s
    case Assemble(tc) => Obtainable(c, tc)
    case Std(compiler, _) => Obtainable(c, compiler)
    case Rustc(compiler, _) => Obtainable(c, compiler)
    case CodegenBackend(compiler, _, _) => Obtainable(c, compiler)
    case _ => true
  }

  ghost predicate KnownBackends(c: Config) {
    forall i :: 0 <= i < |c.backends| ==> c.backends[i] == KNOWN_BACKEND
  }

  /** Artifacts of this compiler are lifted from stage 1: no full bootstrap is asked for, the compiler is
      of the final stage, and the target is a host or the build machine. */
  predicate Uplifts(c: Config, compiler: Compiler, target: Triple) {
    !c.fullBootstrap && compiler.stage >= 2 && (target in c.hosts || target == c.build)
  }

  /** An unknown backend does no harm if it is not built: because the stage is kept, or because the
      backend is lifted from a stage 1 that is kept. */
  predicate SkipsBackends(c: Config, compiler: Compiler, target: Triple) {
    compiler.stage in c.keepStage || (Uplifts(c, compiler, target) && 1 in c.keepStage)
  }

  /** Every stage below `stage` can build the backends for the next one: the last one for `host`, and
      the others for the build machine. */
  ghost predicate StagesBuild(c: Config, stage: nat, host: Triple) {
    stage == 0 ||
    ((KnownBackends(c) || SkipsBackends(c, Compiler(stage - 1, c.build), host)) && StagesBuild(c, stage - 1, c.build))
  }

  /** The compiler can be had, and it and the one for the build machine can be given their backends. */
  ghost predicate CompilerBuilds(c: Config, compiler: Compiler) {
    && Obtainable(c, compiler)
    && StagesBuild(c, compiler.stage, compiler.host) && StagesBuild(c, compiler.stage, c.build)
  }

  /** Nothing stands in the way of a step. */
  ghost predicate Builds(c: Config, s: Step) {
    match s
    case Assemble(tc) => Obtainable(c, tc) && StagesBuild(c, tc.stage, tc.host)
    case Std(compiler, _) => CompilerBuilds(c, compiler)
    case Rustc(compiler, _) => CompilerBuilds(c, compiler)
    case CodegenBackend(compiler, target, backend) =>
      CompilerBuilds(c, compiler) && (backend == KNOWN_BACKEND || SkipsBackends(c, compiler, target))
    case _ => true
  }

  lemma {:induction false} LowerStagesBuild(c: Config, stage: nat, lower: nat)
    requires StagesBuild(c, stage, c.build) && lower <= stage
    ensures StagesBuild(c, lower, c.build)
  {
    if lower < stage { LowerStagesBuild(c, stage - 1, lower); }
  }

  /** Assembling a compiler puts out that compiler. */
  lemma AssembleBuilds(c: Config, tc: Compiler, o: Output)
    requires WellFormed(BootstrapGraph(c)) && Means(BootstrapGraph(c), Assemble(tc)) == Value(o)
    ensures o == Built(tc)
  {
    var all := ValueFinishes(BootstrapGraph(c), Assemble(tc), []);
  }

  /** So the answer to a request of a compiler is known. */
  lemma AnsweredCompiler(c: Config, s: Step, answers: seq<Output>, i: nat, tc: Compiler)
    requires WellFormed(BootstrapGraph(c)) && Answered(BootstrapGraph(c), s, answers) && i < |answers|
    requires i < |Script(c, s, answers[..i])| && Script(c, s, answers[..i])[i] == Assemble(tc)
    ensures AnswerAt(answers, i) == tc
  {
    assert BootstrapGraph(c).next(s, answers[..i]) == Request(Assemble(tc));
    AssembleBuilds(c, tc, answers[i]);
  }

  /** What may be requested: something of lower rank, for a compiler that can be had if that of the
      requesting step can, and that builds if the requesting step does. */
  ghost predicate GoesDown(c: Config, s: Step, t: Step) {
    Rank(c, t) < Rank(c, s) && (Buildable(c, s) ==> Buildable(c, t)) && (Builds(c, s) ==> Builds(c, t))
  }

  /** What assembling a compiler requests, of the one that builds it. */
  predicate RequestedOf(c: Config, tc: Compiler, bc: Compiler, t: Step) {
    || t == Assemble(bc) || t == Rustc(bc, tc.host)
    || (t.CodegenBackend? && t.compiler == bc && t.target == tc.host && t.backend in c.backends)
    || t.Lld? || t.Sysroot? || t.Libdir?
  }

  lemma AssembleScriptRequests(c: Config, tc: Compiler, answers: seq<Output>, i: nat)
    requires i < |AssembleScript(c, tc, answers)| && (i > 0 ==> AnswerAt(answers, 0) == Compiler(tc.stage - 1, c.build))
    ensures RequestedOf(c, tc, Compiler(tc.stage - 1, c.build), AssembleScript(c, tc, answers)[i])
  {
    var n := |c.backends|;
    if 2 <= i < n + 2 {
      assert AssembleScript(c, tc, answers)[i] == BackendRequests(AnswerAt(answers, 0), tc.host, c.backends)[i - 2];
    }
  }

  lemma RequestedGoesDown(c: Config, tc: Compiler, t: Step)
    requires tc.stage > 0 && RequestedOf(c, tc, Compiler(tc.stage - 1, c.build), t)
    ensures GoesDown(c, Assemble(tc), t)
  {
  }

  lemma AssembleGoesDown(c: Config, tc: Compiler, answers: seq<Output>)
    requires WellFormed(BootstrapGraph(c)) && Answered(BootstrapGraph(c), Assemble(tc), answers)
    requires |answers| < |AssembleScript(c, tc, answers)|
    ensures GoesDown(c, Assemble(tc), AssembleScript(c, tc, answers)[|answers|])
  {
    if |answers| > 0 {
      AnsweredCompiler(c, Assemble(tc), answers, 0, Compiler(tc.stage - 1, c.build));
    }
    AssembleScriptRequests(c, tc, answers, |answers|);
    RequestedGoesDown(c, tc, AssembleScript(c, tc, answers)[|answers|]);
  }

  /** What lifting from stage 1 needs is among what the compiler needs. */
  lemma UpliftBuilds(c: Config, compiler: Compiler, target: Triple)
    requires CompilerBuilds(c, compiler)
    ensures Builds(c, CompilerFor(c, compiler, target))
    ensures CompilerBuilds(c, CompilerFor(c, compiler, target).target_compiler)
  {
    if ForceUseStage1(c, compiler, target) { LowerStagesBuild(c, compiler.stage, 1); }
  }

  lemma StdGoesDown(c: Config, compiler: Compiler, target: Triple, answers: seq<Output>)
    requires WellFormed(BootstrapGraph(c)) && Answered(BootstrapGraph(c), Std(compiler, target), answers)
    requires |answers| < |StdScript(c, compiler, target, answers)|
    ensures GoesDown(c, Std(compiler, target), StdScript(c, compiler, target, answers)[|answers|])
  {
    if CompilerBuilds(c, compiler) { UpliftBuilds(c, compiler, target); }
    if compiler.stage !in c.keepStage && |answers| >= 2 {
      AnsweredCompiler(c, Std(compiler, target), answers, 1, CompilerFor(c, compiler, target).target_compiler);
    }
  }

  lemma RustcGoesDown(c: Config, compiler: Compiler, target: Triple, answers: seq<Output>)
    requires WellFormed(BootstrapGraph(c)) && Answered(BootstrapGraph(c), Rustc(compiler, target), answers)
    requires |answers| < |RustcScript(c, compiler, target, answers)|
    ensures GoesDown(c, Rustc(compiler, target), RustcScript(c, compiler, target, answers)[|answers|])
  {
    var s := Rustc(compiler, target);
    if CompilerBuilds(c, compiler) { UpliftBuilds(c, compiler, target); }
    if compiler.stage !in c.keepStage && |answers| >= 2 {
      AnsweredCompiler(c, s, answers, 1, CompilerFor(c, compiler, target).target_compiler);
      if |answers| >= 3 && AnswerAt(answers, 1) == compiler {
        assert AnswerAt(answers[..2], 1) == AnswerAt(answers, 1);
        AnsweredCompiler(c, s, answers, 2, Compiler(compiler.stage, c.build));
      }
    }
  }

  lemma CodegenGoesDown(c: Config, compiler: Compiler, target: Triple, backend: string, answers: seq<Output>)
    requires WellFormed(BootstrapGraph(c))
    requires Answered(BootstrapGraph(c), CodegenBackend(compiler, target, backend), answers)
    requires |answers| < |CodegenScript(c, compiler, target, backend, answers)|
    ensures GoesDown(c, CodegenBackend(compiler, target, backend),
                     CodegenScript(c, compiler, target, backend, answers)[|answers|])
  {
    if CompilerBuilds(c, compiler) { UpliftBuilds(c, compiler, target); }
    if compiler.stage !in c.keepStage && |answers| >= 2 {
      AnsweredCompiler(c, CodegenBackend(compiler, target, backend), answers, 1,
                       CompilerFor(c, compiler, target).target_compiler);
    }
  }

  /** Every request of every step goes down, uplifting from stage 1 included. */
  lemma RequestsGoDown(c: Config, s: Step, t: Step)
    requires WellFormed(BootstrapGraph(c)) && Requests(BootstrapGraph(c), s, t)
    ensures GoesDown(c, s, t)
  {
    var answers :| Answered(BootstrapGraph(c), s, answers) && BootstrapGraph(c).next(s, answers) == Request(t);
    assert |answers| < |Script(c, s, answers)| && t == Script(c, s, answers)[|answers|];
    match s
    case Assemble(tc) => AssembleGoesDown(c, tc, answers);
    case Std(compiler, target) => StdGoesDown(c, compiler, target, answers);
    case Rustc(compiler, target) => RustcGoesDown(c, compiler, target, answers);
    case CodegenBackend(compiler, target, backend) => CodegenGoesDown(c, compiler, target, backend, answers);
    case _ =>
  }

  /** How a step that builds does not end. */
  lemma BuildsWithoutPanic(c: Config, s: Step, answers: seq<Output>)
    requires WellFormed(BootstrapGraph(c)) && Answered(BootstrapGraph(c), s, answers)
    requires BootstrapGraph(c).next(s, answers).Panic?
    ensures BootstrapGraph(c).next(s, answers).message == STAGE_ZERO ==> !Buildable(c, s)
    ensures !Builds(c, s)
    ensures BootstrapGraph(c).next(s, answers).message in {STAGE_ZERO, UNKNOWN_BACKEND}
  {
    if s.CodegenBackend? && s.compiler.stage !in c.keepStage {
      AnsweredCompiler(c, s, answers, 1, CompilerFor(c, s.compiler, s.target).target_compiler);
    }
  }

  /** The bootstrap never asks for a step that is already being built. Whatever the configuration, the
      assertion about stage 0 does not fail for a step whose compiler can be had; and nothing else can
      go wrong than that a backend is unknown. */
  lemma BootstrapEnds(c: Config, s: Step)
    ensures WellFormed(BootstrapGraph(c)) && Means(BootstrapGraph(c), s) != Diverges
    ensures Buildable(c, s) ==>
              Means(BootstrapGraph(c), s).Value? || Means(BootstrapGraph(c), s) == Panics(UNKNOWN_BACKEND)
    ensures Builds(c, s) ==> Means(BootstrapGraph(c), s).Value?
    ensures s.Assemble? && Means(BootstrapGraph(c), s).Value? ==>
              Means(BootstrapGraph(c), s) == Value(Built(s.target_compiler))
  {
    GraphWellFormed(c);
    var g := BootstrapGraph(c);
    var rank := (s: Step) => Rank(c, s);
    var buildable, builds := (s: Step) => Buildable(c, s), (s: Step) => Builds(c, s);
    forall s, t | Requests(g, s, t)
      ensures rank(t) < rank(s) && (buildable(s) ==> buildable(t)) && (builds(s) ==> builds(t))
    {
      RequestsGoDown(c, s, t);
    }
    forall s, answers | Answered(g, s, answers) && g.next(s, answers).Panic?
      ensures !builds(s) && (buildable(s) ==> g.next(s, answers).message == UNKNOWN_BACKEND)
    {
      BuildsWithoutPanic(c, s, answers);
    }
    RankedEnds(g, rank, buildable, {UNKNOWN_BACKEND}, s, []);
    RankedEnds(g, rank, builds, {}, s, []);
    if s.Assemble? && Means(g, s).Value? {
      AssembleBuilds(c, s.target_compiler, Means(g, s).out);
    }
  }

  /** Whatever the configuration: on every chain of requests from a step whose compiler can be had, the
      compilers of all steps can be had, and no stage 0 compiler is one for another host. */
  lemma StageZeroNeverFails(c: Config, p: seq<Step>, i: nat)
    requires WellFormed(BootstrapGraph(c)) && RequestPath(BootstrapGraph(c), p) && i < |p| && Buildable(c, p[0])
    ensures Buildable(c, p[i])
    ensures p[i].Assemble? && p[i].target_compiler.stage == 0 ==> p[i].target_compiler.host == c.build
  {
    var buildable := (s: Step) => Buildable(c, s);
    forall s, t | buildable(s) && Requests(BootstrapGraph(c), s, t) ensures buildable(t) {
      RequestsGoDown(c, s, t);
    }
    AlongPath(BootstrapGraph(c), buildable, p, i);
  }

  // ---- Which compilers can be assembled ----

  /** What is requested by a step that has an output has one itself. */
  lemma RequestedHasValue(c: Config, s: Step, all: seq<Output>, i: nat)
    requires WellFormed(BootstrapGraph(c)) && Answered(BootstrapGraph(c), s, all)
    requires i < |all| && i < |Script(c, s, all[..i])|
    ensures Means(BootstrapGraph(c), Script(c, s, all[..i])[i]).Value?
  {
    assert BootstrapGraph(c).next(s, all[..i]) == Request(Script(c, s, all[..i])[i]);
  }

  /** An unknown backend comes out only if it is not built. */
  lemma {:induction false} UnknownBackendSkipped(c: Config, compiler: Compiler, target: Triple, backend: string)
    requires WellFormed(BootstrapGraph(c)) && backend != KNOWN_BACKEND
    requires Means(BootstrapGraph(c), CodegenBackend(compiler, target, backend)).Value?
    ensures SkipsBackends(c, compiler, target)
    decreases compiler.stage
  {
    var s := CodegenBackend(compiler, target, backend);
    var all := ValueFinishes(BootstrapGraph(c), s, []);
    if compiler.stage !in c.keepStage {
      var used := CompilerFor(c, compiler, target).target_compiler;
      AnsweredCompiler(c, s, all, 1, used);
      assert used != compiler;
      assert AnswerAt(all[..2], 1) == used;
      RequestedHasValue(c, s, all, 2);
      UnknownBackendSkipped(c, used, target, backend);
    }
  }

  lemma AssembleScriptBackend(c: Config, tc: Compiler, answers: seq<Output>, k: nat)
    requires tc.stage > 0 && k < |c.backends|
    ensures k + 2 < |AssembleScript(c, tc, answers)|
    ensures AssembleScript(c, tc, answers)[k + 2] == CodegenBackend(AnswerAt(answers, 0), tc.host, c.backends[k])
  {
    var codegen := BackendRequests(AnswerAt(answers, 0), tc.host, c.backends);
    assert AssembleScript(c, tc, answers)[k + 2] == codegen[k];
  }

  lemma AssembledBackend(c: Config, tc: Compiler, bc: Compiler, all: seq<Output>, k: nat)
    requires WellFormed(BootstrapGraph(c)) && Answered(BootstrapGraph(c), Assemble(tc), all) && tc.stage > 0
    requires |all| >= |AssembleScript(c, tc, all)| && AnswerAt(all, 0) == bc && k < |c.backends|
    ensures Means(BootstrapGraph(c), CodegenBackend(bc, tc.host, c.backends[k])).Value?
  {
    AssembleScriptBackend(c, tc, all, k);
    AssembleScriptBackend(c, tc, all[..k + 2], k);
    RequestedHasValue(c, Assemble(tc), all, k + 2);
  }

  /** A compiler that comes out could be given its backends at every stage. */
  lemma {:induction false} AssembledStagesBuild(c: Config, tc: Compiler)
    requires WellFormed(BootstrapGraph(c)) && Means(BootstrapGraph(c), Assemble(tc)).Value?
    ensures StagesBuild(c, tc.stage, tc.host)
    decreases tc.stage
  {
    if tc.stage > 0 {
      var s, bc := Assemble(tc), Compiler(tc.stage - 1, c.build);
      var all := ValueFinishes(BootstrapGraph(c), s, []);
      AnsweredCompiler(c, s, all, 0, bc);
      RequestedHasValue(c, s, all, 0);
      AssembledStagesBuild(c, bc);
      if !KnownBackends(c) {
        var k: nat :| k < |c.backends| && c.backends[k] != KNOWN_BACKEND;
        AssembledBackend(c, tc, bc, all, k);
        UnknownBackendSkipped(c, bc, tc.host, c.backends[k]);
      }
    }
  }

  /** What becomes of every request of a compiler, in every configuration. */
  lemma AssembleIff(c: Config, tc: Compiler)
    ensures WellFormed(BootstrapGraph(c))
    ensures Means(BootstrapGraph(c), Assemble(tc)) ==
            if !Obtainable(c, tc) then Panics(STAGE_ZERO)
            else if StagesBuild(c, tc.stage, tc.host) then Value(Built(tc))
            else Panics(UNKNOWN_BACKEND)
  {
    BootstrapEnds(c, Assemble(tc));
    if !Obtainable(c, tc) {
      RunMeans(BootstrapGraph(c), Assemble(tc), []);
    } else if Means(BootstrapGraph(c), Assemble(tc)).Value? {
      AssembledStagesBuild(c, tc);
    }
  }

  // ---- What every step requests ----

  /** The requests of a step, in order, given that every compiler comes out as it was asked for. */
  function Recipe(c: Config, s: Step): seq<Step> {
    match s
    case Assemble(tc) =>
      if tc.stage == 0 then []
      else
        var bc := Compiler(tc.stage - 1, c.build);
        [Assemble(bc), Rustc(bc, tc.host)]
        + BackendRequests(bc, tc.host, c.backends)
        + (if c.lldEnabled then [Lld(tc.host)] else [])
        + [Sysroot(tc), Libdir(bc, tc.host), Libdir(tc, tc.host)]
    case Std(compiler, target) =>
      if compiler.stage in c.keepStage then [StdLink(compiler, compiler, target)]
      else if Uplifts(c, compiler, target) then
        [StartupObjects(compiler, target), Assemble(Compiler(1, c.build)), Std(Compiler(1, c.build), target),
         Libdir(compiler, target), StdLink(Compiler(1, c.build), compiler, target)]
      else
        [StartupObjects(compiler, target), Assemble(compiler), Libdir(compiler, target),
         Libdir(compiler, compiler.host), Sysroot(compiler)]
        + (if target !in c.noStd && compiler.stage != 0 && c.sanitizers then [Llvm(c.build)] else [])
        + [Assemble(Compiler(compiler.stage, c.build)), StdLink(Compiler(compiler.stage, c.build), compiler, target)]
    case Rustc(compiler, target) =>
      if compiler.stage in c.keepStage then [Std(compiler, target), RustcLink(compiler, compiler, target)]
      else if Uplifts(c, compiler, target) then
        [Std(compiler, target), Assemble(Compiler(1, c.build)), Rustc(Compiler(1, c.build), target),
         RustcLink(Compiler(1, c.build), compiler, target)]
      else
        [Std(compiler, target), Assemble(compiler), Assemble(Compiler(compiler.stage, c.build)),
         Std(Compiler(compiler.stage, c.build), c.build), Libdir(compiler, compiler.host), Sysroot(compiler),
         Assemble(Compiler(compiler.stage, c.build)), RustcLink(Compiler(compiler.stage, c.build), compiler, target)]
    case CodegenBackend(compiler, target, backend) =>
      if compiler.stage in c.keepStage then [Rustc(compiler, target)]
      else if Uplifts(c, compiler, target) then
        [Rustc(compiler, target), Assemble(Compiler(1, c.build)), CodegenBackend(Compiler(1, c.build), target, backend)]
      else
        [Rustc(compiler, target), Assemble(compiler), Libdir(compiler, compiler.host), Sysroot(compiler)]
        + (if backend == "llvm" then [Llvm(target)] else [])
    case StdLink(compiler, tc, target) => [Libdir(tc, target), Libdir(tc, compiler.host)]
    case RustcLink(compiler, tc, target) => [Libdir(tc, target), Libdir(tc, compiler.host)]
    case StartupObjects(compiler, target) => if target in c.windowsGnu then [Libdir(compiler, target)] else []
    case Libdir(compiler, _) => [Sysroot(compiler)]
    case Sysroot(_) => []
    case Llvm(target) => if target !in c.llvmReady && target != c.build then [Llvm(c.build)] else []
    case Lld(target) => if c.dryRun then [] else [Llvm(target)]
  }

  lemma AssembleFollows(c: Config, tc: Compiler, answers: seq<Output>)
    requires WellFormed(BootstrapGraph(c)) && Answered(BootstrapGraph(c), Assemble(tc), answers)
    ensures FollowsList(BootstrapGraph(c), Assemble(tc), Recipe(c, Assemble(tc)), answers)
  {
    if tc.stage > 0 && |answers| > 0 {
      AnsweredCompiler(c, Assemble(tc), answers, 0, Compiler(tc.stage - 1, c.build));
    }
  }

  lemma StdFollows(c: Config, compiler: Compiler, target: Triple, answers: seq<Output>)
    requires WellFormed(BootstrapGraph(c)) && Answered(BootstrapGraph(c), Std(compiler, target), answers)
    ensures FollowsList(BootstrapGraph(c), Std(compiler, target), Recipe(c, Std(compiler, target)), answers)
  {
    var s := Std(compiler, target);
    if compiler.stage !in c.keepStage && |answers| >= 2 {
      AnsweredCompiler(c, s, answers, 1, if Uplifts(c, compiler, target) then Compiler(1, c.build) else compiler);
      var k := |Recipe(c, s)| - 2;
      if !Uplifts(c, compiler, target) && |answers| > k {
        assert AnswerAt(answers[..k], 1) == AnswerAt(answers, 1);
        AnsweredCompiler(c, s, answers, k, Compiler(compiler.stage, c.build));
      }
    }
  }

  lemma RustcFollows(c: Config, compiler: Compiler, target: Triple, answers: seq<Output>)
    requires WellFormed(BootstrapGraph(c)) && Answered(BootstrapGraph(c), Rustc(compiler, target), answers)
    ensures FollowsList(BootstrapGraph(c), Rustc(compiler, target), Recipe(c, Rustc(compiler, target)), answers)
  {
    var s := Rustc(compiler, target);
    if compiler.stage !in c.keepStage && |answers| >= 2 {
      AnsweredCompiler(c, s, answers, 1, if Uplifts(c, compiler, target) then Compiler(1, c.build) else compiler);
      if !Uplifts(c, compiler, target) {
        if |answers| > 2 {
          assert AnswerAt(answers[..2], 1) == AnswerAt(answers, 1);
          AnsweredCompiler(c, s, answers, 2, Compiler(compiler.stage, c.build));
        }
        if |answers| > 6 {
          assert AnswerAt(answers[..6], 1) == AnswerAt(answers, 1);
          AnsweredCompiler(c, s, answers, 6, Compiler(compiler.stage, c.build));
        }
      }
    }
  }

  lemma CodegenFollows(c: Config, compiler: Compiler, target: Triple, backend: string, answers: seq<Output>)
    requires WellFormed(BootstrapGraph(c))
    requires Answered(BootstrapGraph(c), CodegenBackend(compiler, target, backend), answers)
    ensures FollowsList(BootstrapGraph(c), CodegenBackend(compiler, target, backend),
                        Recipe(c, CodegenBackend(compiler, target, backend)), answers)
  {
    var s := CodegenBackend(compiler, target, backend);
    if compiler.stage !in c.keepStage && |answers| >= 2 {
      AnsweredCompiler(c, s, answers, 1, if Uplifts(c, compiler, target) then Compiler(1, c.build) else compiler);
    }
  }

  /** Every step that comes to its end has requested just what its recipe says, in this order. */
  lemma RequestsFollowRecipe(c: Config, s: Step, ts: seq<Step>)
    requires WellFormed(BootstrapGraph(c)) && RequestedInOrder(BootstrapGraph(c), s, ts)
    ensures ts == Recipe(c, s)
  {
    var g := BootstrapGraph(c);
    forall answers | Answered(g, s, answers) ensures FollowsList(g, s, Recipe(c, s), answers) {
      match s
      case Assemble(tc) => AssembleFollows(c, tc, answers);
      case Std(compiler, target) => StdFollows(c, compiler, target, answers);
      case Rustc(compiler, target) => RustcFollows(c, compiler, target, answers);
      case CodegenBackend(compiler, target, backend) => CodegenFollows(c, compiler, target, backend, answers);
      case _ =>
    }
    RequestsAre(g, s, ts, Recipe(c, s));
  }

  /** Where libraries for this compiler and target are linked from: the compiler itself if its stage is
      kept, the one of stage 1 if they are lifted from there, and else the one of its stage for the build
      machine. */
  function LinkedFrom(c: Config, compiler: Compiler, target: Triple): (from: Compiler)
    ensures compiler.stage in c.keepStage ==> from == compiler
    ensures compiler.stage !in c.keepStage ==>
              from == if !c.fullBootstrap && compiler.stage >= 2 && (target in c.hosts || target == c.build)
                      then Compiler(1, c.build) else Compiler(compiler.stage, c.build)
  {
    if compiler.stage in c.keepStage then compiler
    else if Uplifts(c, compiler, target) then Compiler(1, c.build)
    else Compiler(compiler.stage, c.build)
  }

  /** What a completed step relies on has been built and linked. */
  ghost predicate Complete(c: Config, built: set<Step>, s: Step) {
    match s
    case Assemble(tc) =>
      tc.stage > 0 ==>
        var bc := Compiler(tc.stage - 1, c.build);
        && Assemble(bc) in built && Rustc(bc, tc.host) in built && Sysroot(tc) in built
        && (forall k :: 0 <= k < |c.backends| ==> CodegenBackend(bc, tc.host, c.backends[k]) in built)
        && (c.lldEnabled ==> Lld(tc.host) in built)
    case Std(compiler, target) => StdLink(LinkedFrom(c, compiler, target), compiler, target) in built
    case Rustc(compiler, target) =>
      Std(compiler, target) in built && RustcLink(LinkedFrom(c, compiler, target), compiler, target) in built
    case CodegenBackend(compiler, target, backend) =>
      && Rustc(compiler, target) in built
      && (compiler.stage !in c.keepStage && LinkedFrom(c, compiler, target).stage < compiler.stage ==>
            CodegenBackend(Compiler(1, c.build), target, backend) in built)
      && (compiler.stage !in c.keepStage && LinkedFrom(c, compiler, target).stage == compiler.stage ==>
            backend == "llvm" ==> Llvm(target) in built)
    case StdLink(from, to, target) => Libdir(to, target) in built && Libdir(to, from.host) in built
    case RustcLink(from, to, target) => Libdir(to, target) in built && Libdir(to, from.host) in built
    case StartupObjects(compiler, target) => target in c.windowsGnu ==> Libdir(compiler, target) in built
    case Libdir(compiler, _) => Sysroot(compiler) in built
    case Sysroot(_) => true
    case Llvm(target) => target !in c.llvmReady ==> target == c.build || Llvm(c.build) in built
    case Lld(target) => !c.dryRun ==> Llvm(target) in built
  }

  ghost predicate AllComplete(c: Config, built: set<Step>) {
    forall s :: s in built ==> Complete(c, built, s)
  }

  ghost predicate HoldsRecipe(c: Config, built: set<Step>, s: Step) {
    forall i :: 0 <= i < |Recipe(c, s)| ==> Recipe(c, s)[i] in built
  }

  lemma AssembleComplete(c: Config, built: set<Step>, tc: Compiler)
    requires HoldsRecipe(c, built, Assemble(tc))
    ensures Complete(c, built, Assemble(tc))
  {
    if tc.stage > 0 {
      var r, n, bc := Recipe(c, Assemble(tc)), |c.backends|, Compiler(tc.stage - 1, c.build);
      assert r[0] == Assemble(bc) && r[1] == Rustc(bc, tc.host) && r[|r| - 3] == Sysroot(tc);
      forall k | 0 <= k < n ensures CodegenBackend(bc, tc.host, c.backends[k]) in built {
        assert r[k + 2] == BackendRequests(bc, tc.host, c.backends)[k];
      }
      if c.lldEnabled { assert r[n + 2] == Lld(tc.host); }
    }
  }

  lemma StdComplete(c: Config, built: set<Step>, compiler: Compiler, target: Triple)
    requires HoldsRecipe(c, built, Std(compiler, target))
    ensures Complete(c, built, Std(compiler, target))
  {
    var r := Recipe(c, Std(compiler, target));
    assert r[|r| - 1] == StdLink(LinkedFrom(c, compiler, target), compiler, target);
  }

  lemma RustcComplete(c: Config, built: set<Step>, compiler: Compiler, target: Triple)
    requires HoldsRecipe(c, built, Rustc(compiler, target))
    ensures Complete(c, built, Rustc(compiler, target))
  {
    var r := Recipe(c, Rustc(compiler, target));
    assert r[0] == Std(compiler, target);
    assert r[|r| - 1] == RustcLink(LinkedFrom(c, compiler, target), compiler, target);
  }

  lemma CodegenComplete(c: Config, built: set<Step>, compiler: Compiler, target: Triple, backend: string)
    requires HoldsRecipe(c, built, CodegenBackend(compiler, target, backend))
    ensures Complete(c, built, CodegenBackend(compiler, target, backend))
  {
    var r := Recipe(c, CodegenBackend(compiler, target, backend));
    assert r[0] == Rustc(compiler, target);
    assert |r| > 1 ==> r[|r| - 1] in built;
  }

  /** A step whose whole recipe has been built is complete. */
  lemma RecipeCompletes(c: Config, built: set<Step>, s: Step)
    requires HoldsRecipe(c, built, s)
    ensures Complete(c, built, s)
  {
    match s
    case Assemble(tc) => AssembleComplete(c, built, tc);
    case Std(compiler, target) => StdComplete(c, built, compiler, target);
    case Rustc(compiler, target) => RustcComplete(c, built, compiler, target);
    case CodegenBackend(compiler, target, backend) => CodegenComplete(c, built, compiler, target, backend);
    case _ => assert |Recipe(c, s)| > 0 ==> Recipe(c, s)[0] in built && Recipe(c, s)[|Recipe(c, s)| - 1] in built;
  }

  /** Every step in the cache has requested just what its recipe says, once, and is complete. */
  ghost predicate RunByRecipe(c: Config, cache: map<Step, Output>, made: map<Step, seq<Step>>) {
    AllComplete(c, cache.Keys) && forall s :: s in cache ==> s in made && made[s] == Recipe(c, s)
  }

  lemma CacheIsComplete(c: Config, stack: seq<Step>, cache: map<Step, Output>, ran: seq<Step>,
                        made: map<Step, seq<Step>>)
    requires WellFormed(BootstrapGraph(c)) && Consistent(BootstrapGraph(c), stack, cache, ran, made)
    ensures RunByRecipe(c, cache, made)
  {
    forall s | s in cache.Keys ensures s in made && made[s] == Recipe(c, s) && Complete(c, cache.Keys, s) {
      assert Recorded(BootstrapGraph(c), cache, made, s);
      RequestsFollowRecipe(c, s, made[s]);
      assert forall i :: 0 <= i < |made[s]| ==> made[s][i] in cache;
      RecipeCompletes(c, cache.Keys, s);
    }
  }

  /** How a build of steps can fail. */
  lemma FailureOf(c: Config, root: Step, message: string)
    requires WellFormed(BootstrapGraph(c)) && Means(BootstrapGraph(c), root) == Panics(message)
    ensures Buildable(c, root) ==> message == UNKNOWN_BACKEND
    ensures !Builds(c, root)
  {
    BootstrapEnds(c, root);
  }

  /** One of the roots leads to the step. */
  ghost predicate LedTo(g: Graph<Step, Output>, roots: seq<Step>, t: Step)
    requires WellFormed(g)
  {
    exists i :: 0 <= i < |roots| && ReachesStep(g, roots[i], t)
  }

  /** Building `root` takes the cache from `before` to `cache`. */
  ghost predicate OneBuilt(g: Graph<Step, Output>, before: map<Step, Output>, root: Step, out: Output,
                           cache: map<Step, Output>)
    requires WellFormed(g)
  {
    && root in cache && cache[root] == out
    && (forall s :: s in before ==> s in cache && cache[s] == before[s])
    && (forall t :: t in cache <==> t in before || ReachesStep(g, root, t))
  }

  /** Building the roots one after the other takes an empty cache to `cache`. */
  ghost predicate BuiltBy(g: Graph<Step, Output>, roots: seq<Step>, outs: seq<Output>, cache: map<Step, Output>)
    requires WellFormed(g)
    decreases |roots|
  {
    && |roots| == |outs|
    && var n := |roots| - 1;
    if roots == [] then cache == map[]
    else exists before ::
      BuiltBy(g, roots[..n], outs[..n], before) && OneBuilt(g, before, roots[n], outs[n], cache)
  }

  lemma BuiltByOneMore(g: Graph<Step, Output>, roots: seq<Step>, outs: seq<Output>, before: map<Step, Output>,
                       root: Step, out: Output, cache: map<Step, Output>)
    requires WellFormed(g) && BuiltBy(g, roots, outs, before) && OneBuilt(g, before, root, out, cache)
    ensures BuiltBy(g, roots + [root], outs + [out], cache)
  {
    assert (roots + [root])[..|roots|] == roots && (outs + [out])[..|roots|] == outs;
  }

  /** Then the outputs of the roots are in the cache. */
  lemma {:induction false} BuiltByOutputs(g: Graph<Step, Output>, roots: seq<Step>, outs: seq<Output>,
                                          cache: map<Step, Output>, i: nat)
    requires WellFormed(g) && BuiltBy(g, roots, outs, cache) && i < |roots|
    ensures roots[i] in cache && cache[roots[i]] == outs[i]
    decreases |roots|
  {
    var n := |roots| - 1;
    var before :| BuiltBy(g, roots[..n], outs[..n], before) && OneBuilt(g, before, roots[n], outs[n], cache);
    if i < n {
      BuiltByOutputs(g, roots[..n], outs[..n], before, i);
    }
  }

  /** And it holds just the steps that the roots lead to. */
  lemma {:induction false} BuiltByRoots(g: Graph<Step, Output>, roots: seq<Step>, outs: seq<Output>,
                                        cache: map<Step, Output>, t: Step)
    requires WellFormed(g) && BuiltBy(g, roots, outs, cache)
    ensures t in cache <==> LedTo(g, roots, t)
    decreases |roots|
  {
    if roots != [] {
      var n := |roots| - 1;
      var before :| BuiltBy(g, roots[..n], outs[..n], before) && OneBuilt(g, before, roots[n], outs[n], cache);
      BuiltByRoots(g, roots[..n], outs[..n], before, t);
      LedToLast(g, roots, t);
    }
  }

  lemma LedToLast(g: Graph<Step, Output>, roots: seq<Step>, t: Step)
    requires WellFormed(g) && roots != []
    ensures LedTo(g, roots, t) <==> LedTo(g, roots[..|roots| - 1], t) || ReachesStep(g, roots[|roots| - 1], t)
  {
    var n := |roots| - 1;
    if LedTo(g, roots[..n], t) {
      var i :| 0 <= i < n && ReachesStep(g, roots[..n][i], t);
      assert roots[i] == roots[..n][i];
    }
    if LedTo(g, roots, t) {
      var i :| 0 <= i < |roots| && ReachesStep(g, roots[i], t);
      if i < n { assert roots[..n][i] == roots[i]; }
    }
  }

  /** One of the steps asked for on the command line. */
  method BuildRoot(c: Config, b: Builder<Step, Output>, root: Step) returns (r: Outcome<Output>)
    requires b.Valid() && b.graph == BootstrapGraph(c) && b.stack == [] && b.parent == None
    requires Total(b.timings) == b.timeSpentOnDependencies
    modifies b
    ensures b.Valid() && r == OutcomeOf(Means(b.graph, root)) && r != CycleDetected
    ensures r.Done? ==> b.stack == [] && b.parent == None && Total(b.timings) == b.timeSpentOnDependencies
    ensures r.Done? ==> OneBuilt(b.graph, old(b.cache), root, r.out, b.cache)
  {
    BootstrapEnds(c, root);
    ghost var u := FiniteReach(b.graph, root);
    ghost var began;
    r, began := b.Ensure(root, u);
  }

  lemma PrefixGrows(s: seq<Step>, k: nat)
    requires k <= |s|
    ensures if k < |s| then s[..k + 1] == s[..k] + [s[k]] else s[..k] == s
  {
  }

  /** A fresh builder builds the steps asked for on the command line, until one of them panics. */
  method BuildRoots(c: Config, b: Builder<Step, Output>, roots: seq<Step>)
    returns (outs: seq<Output>, failure: Option<string>)
    requires b.Valid() && b.graph == BootstrapGraph(c) && b.stack == [] && b.parent == None && b.cache == map[]
    requires Total(b.timings) == b.timeSpentOnDependencies
    modifies b
    ensures b.Valid() && |outs| <= |roots| && (failure == None <==> |outs| == |roots|)
    ensures failure.Some? ==> Means(b.graph, roots[|outs|]) == Panics(failure.value)
    ensures failure == None ==>
              && b.stack == [] && b.parent == None && Total(b.timings) == b.timeSpentOnDependencies
              && BuiltBy(b.graph, roots, outs, b.cache)
  {
    outs, failure := [], None;
    for k := 0 to |roots|
      invariant b.Valid() && b.stack == [] && b.parent == None
      invariant |outs| == k && failure == None && Total(b.timings) == b.timeSpentOnDependencies
      invariant BuiltBy(b.graph, roots[..k], outs, b.cache)
    {
      ghost var before := b.cache;
      var r := BuildRoot(c, b, roots[k]);
      if r.StepPanicked? {
        failure := Some(r.message);
        return;
      }
      BuiltByOneMore(b.graph, roots[..k], outs, before, roots[k], r.out, b.cache);
      PrefixGrows(roots, k);
      outs := outs + [r.out];
    }
    PrefixGrows(roots, |roots|);
  }

  /** A whole bootstrap, by one builder. A cycle is never reported. No step is run twice; the steps that
      were completed are just those that the ones asked for lead to; each of them has requested what its
      recipe says, once and in order; nothing that they rely on is missing; and the times that the steps
      took on their own add up to the time that was accounted for. */
  method Bootstrap(c: Config, roots: seq<Step>, nodeName: Step -> string)
    returns (b: Builder<Step, Output>, outs: seq<Output>, failure: Option<string>)
    ensures b.Valid() && b.graph == BootstrapGraph(c) && Distinct(b.ran)
    ensures RunByRecipe(c, b.cache, b.made)
    ensures |outs| <= |roots| && (failure == None <==> |outs| == |roots|)
    ensures failure.Some? ==>
              && Means(b.graph, roots[|outs|]) == Panics(failure.value) && !Builds(c, roots[|outs|])
              && (Buildable(c, roots[|outs|]) ==> failure.value == UNKNOWN_BACKEND)
    ensures failure == None ==>
              && b.stack == [] && b.parent == None && Total(b.timings) == b.timeSpentOnDependencies
              && (forall i :: 0 <= i < |roots| ==> roots[i] in b.cache && b.cache[roots[i]] == outs[i])
              && (forall t :: t in b.cache <==> LedTo(b.graph, roots, t))
  {
    GraphWellFormed(c);
    b := new Builder(BootstrapGraph(c), nodeName);
    outs, failure := BuildRoots(c, b, roots);
    CacheIsComplete(c, b.stack, b.cache, b.ran, b.made);
    if failure.Some? {
      FailureOf(c, roots[|outs|], failure.value);
    } else {
      forall i: nat | i < |roots| ensures roots[i] in b.cache && b.cache[roots[i]] == outs[i] {
        BuiltByOutputs(b.graph, roots, outs, b.cache, i);
      }
      forall t ensures t in b.cache <==> LedTo(b.graph, roots, t) {
        BuiltByRoots(b.graph, roots, outs, b.cache, t);
      }
    }
  }
}

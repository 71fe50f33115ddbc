/**
 When the generated code behaves as the composite does whatever the tools do: a condition on the steps and the
 incoming arguments that can be checked before any call, and one failing input for each way to miss it.
 */
module CodegenStatic {
  import opened Basics
  import opened PythonText
  import opened ToolValues
  import opened CompositeChain
  import opened CompositeCodegen
  import opened CodegenCorrectness

  // ----- the condition -----

  /**
   The expression means the same in both runs for every previous output: a literal, an incoming argument that
   the sandbox keeps, or a path of one part. In the first step any path will do, the previous output being empty.
   */
  predicate StaticArg(expr: Value, args: Object, first: bool, show: Value -> string) {
    if expr.Str? && StartsWith(expr.s, ARGS_PREFIX) then
      var key := expr.s[6..];
      if key == "args" then Get(args, "args") == Truncate(Dict(args), 1, show)
      else key in args ==> Shallow(args[key], 1)
    else if expr.Str? && StartsWith(expr.s, PREV_PREFIX) then first || '.' !in expr.s[6..]
    else true
  }

  predicate StaticStep(step: Step, table: map<string, string>, args: Object, first: bool, show: Value -> string)
    requires step.Step?
  {
    && Route(table, Mangle(Strip(step.ref))) == Strip(step.ref)
    && forall k :: 0 <= k < |ArgsOf(step)| ==> StaticArg(ArgsOf(step)[k].1, args, first, show)
  }

  predicate StaticallySafe(steps: seq<Step>, args: Object, show: Value -> string)
    requires AllRunnable(steps)
  {
    forall i :: 0 <= i < |steps| ==> StaticStep(steps[i], Table(steps), args, i == 0, show)
  }

  // ----- it suffices -----

  lemma {:induction false} NothingInEmpty(path: seq<string>)
    requires path != []
    ensures Traverse(Dict(map[]), path) == Null
  {
    if |path| > 1 {
      NothingInEmpty(path[..|path| - 1]);
    }
  }

  lemma StaticArgSafe(expr: Value, args: Object, prev: Object, first: bool, show: Value -> string)
    requires StaticArg(expr, args, first, show) && (first ==> prev == map[])
    ensures ArgSafe(expr, args, prev, show)
  {
    if expr.Str? && !StartsWith(expr.s, ARGS_PREFIX) && StartsWith(expr.s, PREV_PREFIX) {
      var parts := Split(expr.s[6..], '.');
      if first {
        forall k | 0 <= k < |parts|
          ensures Traverse(Dict(prev), parts[..k]) == if k == 0 then Dict(prev) else Null
        {
          if k > 0 {
            NothingInEmpty(parts[..k]);
          }
        }
      } else {
        SplitWithout(expr.s[6..], '.');
        assert Traverse(Dict(prev), parts[..0]) == Dict(prev);
      }
    }
  }

  lemma StaticStepSafe(step: Step, table: map<string, string>, args: Object, prev: Object, first: bool,
                       show: Value -> string)
    requires step.Step? && StaticStep(step, table, args, first, show) && (first ==> prev == map[])
    ensures StepSafe(step, table, args, prev, show)
  {
    hide StaticArg, ArgSafe, Strip, Mangle;
    forall k | 0 <= k < |ArgsOf(step)|
      ensures ArgSafe(ArgsOf(step)[k].1, args, prev, show)
    {
      StaticArgSafe(ArgsOf(step)[k].1, args, prev, first, show);
    }
  }

  /** The same calls, success together, and the same output unless it is nested too deeply. */
  predicate SameUpToDepth(composite: Report, generated: Report) {
    && composite.calls == generated.calls
    && (composite.status == Success <==> generated.status == Success)
    && (composite.status == Success ==>
          (composite.output == generated.output <==> ShallowObject(composite.output, 1)))
  }

  lemma {:induction false} StaticRunsAgree(steps: seq<Step>, table: map<string, string>, args: Object, prev: Object,
                                           calls: seq<Call>, first: bool, runtime: Runtime, show: Value -> string)
    requires AllRunnable(steps) && (first ==> prev == map[])
    requires forall i :: 0 <= i < |steps| ==> StaticStep(steps[i], table, args, first && i == 0, show)
    ensures SameUpToDepth(RunChain(steps, args, prev, calls, runtime),
                          RunLines(Body(steps), table, SandboxVars(args, show), prev, calls, runtime, show))
  {
    if steps == [] {
      TruncateKeepsObject(prev, 1, show);
    } else {
      StaticStepSafe(steps[0], table, args, prev, first, show);
      SafeStepUnfolds(steps, table, args, prev, calls, runtime, show);
      ChainUnfolds(steps, args, prev, calls, runtime);
      hide Strip, Mangle, CallFor, SandboxVars, RunLines, RunChain, StepSafe, StaticStep, Body, ShallowObject;
      var call := CallFor(steps[0], args, prev);
      var rest := steps[1..];
      forall i | 0 <= i < |rest|
        ensures StaticStep(rest[i], table, args, false && i == 0, show)
      {
        assert rest[i] == steps[i + 1];
      }
      StaticRunsAgree(rest, table, args, runtime(calls, call).output, calls + [call], false, runtime, show);
    }
  }

  /** For statically safe steps the two runs agree whatever the tools do, up to a deeply nested final output. */
  lemma StaticAgrees(steps: seq<Step>, args: Object, runtime: Runtime, show: Value -> string)
    requires AllRunnable(steps) && steps != [] && StaticallySafe(steps, args, show)
    ensures SameUpToDepth(RunComposite(steps, args, runtime), RunProgram(Compile(steps), args, runtime, show))
  {
    hide StaticStep, RunChain, RunLines, SandboxVars;
    StaticRunsAgree(steps, Table(steps), args, map[], [], true, runtime, show);
  }

  // ----- it is needed -----

  /** The runtime in which every tool succeeds with the same output. */
  function Always(output: Object): Runtime {
    (calls, call) => Outcome(Success, output)
  }

  /** Statically safe steps up to one that is not safe: there the runs part. */
  lemma {:induction false} Parts(steps: seq<Step>, table: map<string, string>, args: Object, prev: Object,
                                 calls: seq<Call>, first: bool, output: Object, show: Value -> string, i: nat)
    requires AllRunnable(steps) && i < |steps| && (first ==> prev == map[])
    requires forall j :: 0 <= j < i ==> StaticStep(steps[j], table, args, first && j == 0, show)
    requires !StepSafe(steps[i], table, args, if i == 0 then prev else output, show)
    ensures RunChain(steps, args, prev, calls, Always(output)).calls !=
            RunLines(Body(steps), table, SandboxVars(args, show), prev, calls, Always(output), show).calls
  {
    hide Strip, Mangle, CallFor, SandboxVars, RunLines, RunChain, StepSafe, StaticStep, Body, Always;
    if i == 0 {
      UnsafeStepShows(steps, table, args, prev, calls, Always(output), show);
    } else {
      var call, rest := CallFor(steps[0], args, prev), steps[1..];
      StaticStepSafe(steps[0], table, args, prev, first, show);
      SafeStepUnfolds(steps, table, args, prev, calls, Always(output), show);
      ChainUnfolds(steps, args, prev, calls, Always(output));
      AlwaysReturns(output, calls, call);
      forall j | 0 <= j < i - 1
        ensures StaticStep(rest[j], table, args, false && j == 0, show)
      {
        assert rest[j] == steps[j + 1];
      }
      assert rest[i - 1] == steps[i];
      Parts(rest, table, args, output, calls + [call], false, output, show, i - 1);
    }
  }

  lemma AlwaysReturns(output: Object, calls: seq<Call>, call: Call)
    ensures Always(output)(calls, call) == Outcome(Success, output)
  {
  }

  lemma {:induction false} FirstPart(s: string)
    requires '.' in s
    ensures |Split(s, '.')| >= 2
  {
    if s[0] != '.' {
      FirstPart(s[1..]);
    }
  }

  /** The output that a path of several parts cannot cross: its first part leads to a number. */
  function Trap(expr: Value): Object {
    if expr.Str? && StartsWith(expr.s, PREV_PREFIX) then map[Split(expr.s[6..], '.')[0] := Num(1.0)] else map[]
  }

  lemma TrapIsShallow(expr: Value)
    ensures ShallowObject(Trap(expr), 1)
  {
  }

  lemma TrapSprings(expr: Value, args: Object, first: bool, show: Value -> string)
    requires !StaticArg(expr, args, first, show)
    ensures !ArgSafe(expr, args, if first then map[] else Trap(expr), show)
  {
    if expr.Str? && !StartsWith(expr.s, ARGS_PREFIX) && StartsWith(expr.s, PREV_PREFIX) {
      FirstPart(expr.s[6..]);
      var parts := Split(expr.s[6..], '.');
      var prev := Dict(Trap(expr));
      assert Traverse(prev, parts[..1]) == Num(1.0) by {
        assert parts[..1][..0] == [];
        assert Traverse(prev, []) == prev;
      }
      assert CrossesScalar(prev, parts);
    }
  }

  /** The output with which a step that is not statically safe goes wrong. */
  lemma BadStep(step: Step, table: map<string, string>, args: Object, first: bool, show: Value -> string)
    returns (output: Object)
    requires step.Step? && !StaticStep(step, table, args, first, show)
    ensures ShallowObject(output, 1) && !StepSafe(step, table, args, if first then map[] else output, show)
  {
    hide StaticArg, ArgSafe, Strip, Mangle, ShallowObject, Trap;
    if k :| 0 <= k < |ArgsOf(step)| && !StaticArg(ArgsOf(step)[k].1, args, first, show) {
      var expr := ArgsOf(step)[k].1;
      output := Trap(expr);
      TrapIsShallow(expr);
      TrapSprings(expr, args, first, show);
      assert !ArgSafe(ArgsOf(step)[k].1, args, if first then map[] else output, show);
    } else {
      output := Trap(Null);
      TrapIsShallow(Null);
    }
  }

  /** Steps that are not statically safe part from the composite for some tools with shallow outputs. */
  lemma UnsafeParts(steps: seq<Step>, args: Object, show: Value -> string) returns (output: Object)
    requires AllRunnable(steps) && !StaticallySafe(steps, args, show)
    ensures ShallowObject(output, 1)
    ensures RunComposite(steps, args, Always(output)).calls !=
            RunProgram(Compile(steps), args, Always(output), show).calls
  {
    hide StaticStep, StepSafe, RunChain, RunLines, SandboxVars, ShallowObject;
    var i := FirstBad(steps, args, show, 0);
    output := BadStep(steps[i], Table(steps), args, i == 0, show);
    Parts(steps, Table(steps), args, map[], [], true, output, show, i);
  }

  lemma {:induction false} FirstBad(steps: seq<Step>, args: Object, show: Value -> string, at: nat) returns (i: nat)
    requires AllRunnable(steps) && !StaticallySafe(steps, args, show) && at <= |steps|
    requires forall j :: 0 <= j < at ==> StaticStep(steps[j], Table(steps), args, j == 0, show)
    ensures i < |steps| && !StaticStep(steps[i], Table(steps), args, i == 0, show)
    ensures forall j :: 0 <= j < i ==> StaticStep(steps[j], Table(steps), args, j == 0, show)
    decreases |steps| - at
  {
    hide StaticStep, Table, Strip;
    if StaticStep(steps[at], Table(steps), args, at == 0, show) {
      i := FirstBad(steps, args, show, at + 1);
    } else {
      i := at;
    }
  }

  // ----- the two together -----

  /** The generated code makes the composite's calls for every runtime exactly when the steps are statically safe. */
  lemma CallsAlwaysAgreeIff(steps: seq<Step>, args: Object, show: Value -> string)
    requires AllRunnable(steps) && steps != []
    ensures (forall runtime: Runtime ::
               RunComposite(steps, args, runtime).calls == RunProgram(Compile(steps), args, runtime, show).calls) <==>
            StaticallySafe(steps, args, show)
  {
    hide StaticallySafe, RunComposite, RunProgram;
    if StaticallySafe(steps, args, show) {
      forall runtime: Runtime
        ensures RunComposite(steps, args, runtime).calls == RunProgram(Compile(steps), args, runtime, show).calls
      {
        StaticAgrees(steps, args, runtime, show);
      }
    } else {
      var output := UnsafeParts(steps, args, show);
    }
  }

  ghost predicate ShallowOutputs(runtime: Runtime) {
    forall calls: seq<Call>, call: Call :: ShallowObject(runtime(calls, call).output, 1)
  }

  /** For tools with shallow outputs the runs agree in everything exactly when there are steps and they are safe. */
  lemma AlwaysAgreesIff(steps: seq<Step>, args: Object, show: Value -> string)
    requires AllRunnable(steps)
    ensures (forall runtime: Runtime :: ShallowOutputs(runtime) ==>
               Agree(RunComposite(steps, args, runtime), RunProgram(Compile(steps), args, runtime, show))) <==>
            steps != [] && StaticallySafe(steps, args, show)
  {
    hide StaticallySafe, RunComposite, RunProgram, ShallowObject;
    if steps == [] {
      EmptyListDiffers(args, Always(Trap(Null)), show);
      TrapIsShallow(Null);
      assert ShallowOutputs(Always(Trap(Null)));
    } else if StaticallySafe(steps, args, show) {
      forall runtime: Runtime | ShallowOutputs(runtime)
        ensures Agree(RunComposite(steps, args, runtime), RunProgram(Compile(steps), args, runtime, show))
      {
        StaticAgrees(steps, args, runtime, show);
        OutputIsShallow(steps, args, runtime);
      }
    } else {
      var output := UnsafeParts(steps, args, show);
      assert ShallowOutputs(Always(output));
    }
  }

  lemma OutputIsShallow(steps: seq<Step>, args: Object, runtime: Runtime)
    requires AllRunnable(steps) && steps != [] && ShallowOutputs(runtime)
    ensures RunComposite(steps, args, runtime).status == Success ==>
              ShallowObject(RunComposite(steps, args, runtime).output, 1)
  {
    hide RunChain, ShallowObject, Strip;
    var r := RunComposite(steps, args, runtime);
    if r.status == Success {
      ChainExtends(steps, args, map[], [], runtime);
      ChainStopsAtFailure(steps, args, map[], [], runtime, |r.calls| - 1);
    }
  }

  // ----- a condition on the steps alone -----

  /** A literal, an argument other than `args`, or a top-level key of the previous output. */
  predicate PlainArg(expr: Value) {
    if expr.Str? && StartsWith(expr.s, ARGS_PREFIX) then expr.s[6..] != "args"
    else if expr.Str? && StartsWith(expr.s, PREV_PREFIX) then '.' !in expr.s[6..]
    else true
  }

  predicate PlainSteps(steps: seq<Step>)
    requires AllRunnable(steps)
  {
    forall i :: 0 <= i < |steps| ==>
                  forall k :: 0 <= k < |ArgsOf(steps[i])| ==> PlainArg(ArgsOf(steps[i])[k].1)
  }

  /** Collision-free steps with plain arguments are statically safe for all shallow incoming arguments. */
  lemma PlainStepsAgree(steps: seq<Step>, args: Object, runtime: Runtime, show: Value -> string)
    requires AllRunnable(steps) && steps != []
    requires NoCollision(steps) && PlainSteps(steps) && ShallowObject(args, 1)
    ensures StaticallySafe(steps, args, show)
    ensures SameUpToDepth(RunComposite(steps, args, runtime), RunProgram(Compile(steps), args, runtime, show))
  {
    RoutedIffNoCollision(steps);
    forall i | 0 <= i < |steps|
      ensures StaticStep(steps[i], Table(steps), args, i == 0, show)
    {
      hide Strip, Mangle, Table, NoCollision;
      assert RefAt(steps, i) == Strip(steps[i].ref);
    }
    hide StaticallySafe, SameUpToDepth, RunComposite, RunProgram;
    StaticAgrees(steps, args, runtime, show);
  }

  // ----- one failing input for each way -----

  /** An empty list is an error of the composite and a success of the generated code. */
  lemma EmptyListDiffers(args: Object, runtime: Runtime, show: Value -> string)
    ensures RunComposite([], args, runtime).status == Error
    ensures RunProgram(Compile([]), args, runtime, show).status == Success
  {
    assert Body([]) == [];
  }

  function Single(ref: string, expr: Value): Step {
    Step(ref, Some([("x", expr)]))
  }

  /** One step with an argument that is not safe: the call differs for every runtime. */
  lemma OneArgumentDiffers(ref: string, expr: Value, args: Object, runtime: Runtime, show: Value -> string)
    requires Strip(ref) != "" && !ArgSafe(expr, args, map[], show)
    ensures AllRunnable([Single(ref, expr)])
    ensures RunComposite([Single(ref, expr)], args, runtime).calls !=
            RunProgram(Compile([Single(ref, expr)]), args, runtime, show).calls
  {
    hide Strip, ArgSafe, Mangle, RunChain, RunLines, SandboxVars, Route;
    var steps := [Single(ref, expr)];
    assert !ArgSafe(ArgsOf(steps[0])[0].1, args, map[], show);
    UnsafeStepShows(steps, Table(steps), args, map[], [], runtime, show);
  }

  /** An incoming argument named `args` is shadowed by the variable of that name. */
  lemma ArgsKeyDiffers(ref: string, runtime: Runtime, show: Value -> string)
    requires Strip(ref) != ""
    ensures var steps, args := [Single(ref, Str("$args.args"))], map["args" := Num(1.0)];
            && AllRunnable(steps)
            && RunComposite(steps, args, runtime).calls != RunProgram(Compile(steps), args, runtime, show).calls
  {
    var expr, args := "$args.args", map["args" := Num(1.0)];
    assert StartsWith(expr, ARGS_PREFIX) && expr[6..] == "args";
    assert Truncate(Dict(args), 1, show).Dict?;
    OneArgumentDiffers(ref, Str(expr), args, runtime, show);
  }

  /** A number under `n` lists. */
  function Deep(n: nat): Value {
    if n == 0 then Num(1.0) else List([Deep(n - 1)])
  }

  lemma {:induction false} DeepIsDeep(n: nat, depth: nat)
    requires n + depth > MAX_SAFE_DEPTH
    ensures !Shallow(Deep(n), depth)
  {
    if depth <= MAX_SAFE_DEPTH {
      DeepIsDeep(n - 1, depth + 1);
      assert Deep(n).items[0] == Deep(n - 1);
    }
  }

  /** An incoming argument nested deeper than five levels arrives as text. */
  lemma DeepArgumentDiffers(ref: string, n: nat, runtime: Runtime, show: Value -> string)
    requires Strip(ref) != "" && n >= MAX_SAFE_DEPTH
    ensures var steps, args := [Single(ref, Str("$args.k"))], map["k" := Deep(n)];
            && AllRunnable(steps)
            && RunComposite(steps, args, runtime).calls != RunProgram(Compile(steps), args, runtime, show).calls
  {
    var expr, args := "$args.k", map["k" := Deep(n)];
    assert StartsWith(expr, ARGS_PREFIX) && expr[6..] == "k";
    DeepIsDeep(n, 1);
    OneArgumentDiffers(ref, Str(expr), args, runtime, show);
  }

  /** A path through a number: the composite passes None and succeeds, the generated code raises. */
  lemma ScalarPathDiffers(ref: string, args: Object, show: Value -> string)
    requires Strip(ref) != ""
    ensures var steps := [Step(ref, None), Single(ref, Str("$prev.p.q"))];
            var runtime := Always(map["p" := Num(1.0)]);
            && AllRunnable(steps)
            && RunComposite(steps, args, runtime).status == Success
            && RunProgram(Compile(steps), args, runtime, show).status == Error
  {
    var steps := [Step(ref, None), Single(ref, Str("$prev.p.q"))];
    var runtime := Always(map["p" := Num(1.0)]);
    ScalarPathComposite(steps, args, runtime);
    ScalarPathGenerated(ref, args, show);
  }

  lemma ScalarPathComposite(steps: seq<Step>, args: Object, runtime: Runtime)
    requires |steps| == 2 && AllRunnable(steps) && forall calls, call :: runtime(calls, call).status == Success
    ensures RunComposite(steps, args, runtime).status == Success
  {
    hide Strip, CallFor;
    ChainUnfolds(steps, args, map[], [], runtime);
    var first := CallFor(steps[0], args, map[]);
    var output := runtime([], first).output;
    ChainUnfolds(steps[1..], args, output, [first], runtime);
    assert steps[1..][1..] == [];
  }

  lemma ScalarPathGenerated(ref: string, args: Object, show: Value -> string)
    requires Strip(ref) != ""
    ensures var steps := [Step(ref, None), Single(ref, Str("$prev.p.q"))];
            AllRunnable(steps) &&
            RunProgram(Compile(steps), args, Always(map["p" := Num(1.0)]), show).status == Error
  {
    hide Strip, Mangle, RunLines, SandboxVars, Route, Table, Always, EvalKwargs, TranslateArgs, ArgSafe, Body;
    var steps := [Step(ref, None), Single(ref, Str("$prev.p.q"))];
    var output: Object := map["p" := Num(1.0)];
    OneRefRouted(steps, ref);
    assert StepSafe(steps[0], Table(steps), args, map[], show);
    SecondStepRaises(ref, SandboxVars(args, show), output);
    assert ArgsOf(steps[1]) == [("x", Str("$prev.p.q"))];
    hide StepSafe, ArgsOf;
    SafeThenRaises(steps, Table(steps), args, output, show);
  }

  lemma SafeThenRaises(steps: seq<Step>, table: map<string, string>, args: Object, output: Object,
                       show: Value -> string)
    requires |steps| == 2 && AllRunnable(steps) && StepSafe(steps[0], table, args, map[], show)
    requires EvalKwargs(TranslateArgs(ArgsOf(steps[1])), SandboxVars(args, show), output) == None
    ensures RunLines(Body(steps), table, SandboxVars(args, show), map[], [], Always(output), show).status == Error
  {
    hide Strip, Mangle, RunLines, SandboxVars, CallFor, Always, EvalKwargs, TranslateArgs, StepSafe, ArgsOf;
    SafeStepUnfolds(steps, table, args, map[], [], Always(output), show);
    var call, rest := CallFor(steps[0], args, map[]), Body(steps[1..]);
    AlwaysReturns(output, [], call);
    assert [] + [call] == [call];
    assert rest[0] == LineFor(steps[1]);
    assert rest[0].kwargs == TranslateArgs(ArgsOf(steps[1]));
    RaisingLine(rest, table, SandboxVars(args, show), output, [call], Always(output), show);
  }

  lemma OneRefRouted(steps: seq<Step>, ref: string)
    requires AllRunnable(steps) && steps != [] && forall i :: 0 <= i < |steps| ==> steps[i].ref == ref
    ensures Route(Table(steps), Mangle(Strip(ref))) == Strip(ref)
  {
    hide Strip, Mangle, Table;
    RoutedIffNoCollision(steps);
    assert RefAt(steps, 0) == Strip(ref);
  }

  lemma SecondStepRaises(ref: string, vars: Object, output: Object)
    requires output == map["p" := Num(1.0)]
    ensures EvalKwargs(TranslateArgs([("x", Str("$prev.p.q"))]), vars, output) == None
  {
    var expr := "$prev.p.q";
    assert expr[1] == 'p' && ARGS_PREFIX[1] == 'a';
    assert StartsWith(expr, PREV_PREFIX) && !StartsWith(expr, ARGS_PREFIX) && expr[6..] == "p.q";
    PartsOfPath();
    var parts := ["p", "q"];
    var prev := Dict(output);
    assert Traverse(prev, parts[..1]) == Num(1.0) by {
      assert parts[..1][..0] == [];
    }
    assert CrossesScalar(prev, parts);
    PathEvaluates(parts, vars, output);
  }

  lemma PartsOfPath()
    ensures Split("p.q", '.') == ["p", "q"]
  {
    var path, rest := "p.q", ".q";
    SplitWithout("q", '.');
    assert rest[1..] == "q" && path[1..] == rest;
    assert Split(rest, '.') == [""] + ["q"];
    assert Split(path, '.') == [['p'] + Split(rest, '.')[0]] + Split(rest, '.')[1..];
    assert ['p'] + "" == "p" && Split(rest, '.')[1..] == ["q"];
  }

  lemma RaisingLine(lines: seq<Line>, table: map<string, string>, vars: Object, prev: Object, calls: seq<Call>,
                    runtime: Runtime, show: Value -> string)
    requires lines != [] && EvalKwargs(lines[0].kwargs, vars, prev) == None
    ensures RunLines(lines, table, vars, prev, calls, runtime, show) == Report(Error, map[], calls)
  {
  }

  const DOTTED := "x.y"
  const DASHED := "x-y"

  lemma CollidingRefs()
    ensures Strip(DOTTED) == DOTTED && Strip(DASHED) == DASHED && Mangle(DOTTED) == Mangle(DASHED)
  {
    StripIs("", DOTTED, "");
    StripIs("", DASHED, "");
    assert "" + DOTTED + "" == DOTTED && "" + DASHED + "" == DASHED;
    hide Strip;
    assert Replace(Replace(DOTTED, '.', '_'), '-', '_') == Replace(Replace(DASHED, '.', '_'), '-', '_');
  }

  /** Without arguments the first step's call is always made. */
  lemma FirstCallIsMade(steps: seq<Step>, args: Object, runtime: Runtime, show: Value -> string)
    requires AllRunnable(steps) && steps != [] && steps[0].args == None
    ensures RunComposite(steps, args, runtime).calls != []
    ensures RunProgram(Compile(steps), args, runtime, show).calls != []
  {
    FirstStepCalls(steps, args, map[], [], runtime);
    FirstLineCalls(Body(steps), Table(steps), SandboxVars(args, show), map[], [], runtime, show);
    hide Strip, Mangle, RunLines, RunChain, SandboxVars, Route, Table;
    assert Body(steps)[0] == LineFor(steps[0]);
    assert TranslateArgs([]) == [];
  }

  /** Two refs that collide: the first call of the composite goes to one tool, that of the code to the other. */
  lemma CollisionDiffers(args: Object, runtime: Runtime, show: Value -> string)
    ensures var steps := [Step(DOTTED, None), Step(DASHED, None)];
            && AllRunnable(steps)
            && var c, g := RunComposite(steps, args, runtime), RunProgram(Compile(steps), args, runtime, show);
               c.calls != [] && g.calls != [] && c.calls[0].ref == DOTTED && g.calls[0].ref == DASHED
  {
    hide Strip, Mangle, RunComposite, RunProgram;
    var steps := [Step(DOTTED, None), Step(DASHED, None)];
    CollidingRefs();
    assert DOTTED[1] != DASHED[1];
    assert AllRunnable(steps);
    assert RefAt(steps, 0) == DOTTED && RefAt(steps, 1) == DASHED;
    FirstCallIsMade(steps, args, runtime, show);
    CollisionMisroutes(steps, 0, 1, args, runtime, show);
  }

  /** A failure other than a plain error keeps its kind in the composite and loses it in the generated code. */
  lemma StatusDiffers(ref: string, kind: string, args: Object, runtime: Runtime, show: Value -> string)
    requires Strip(ref) != "" && forall calls, call :: runtime(calls, call).status == Other(kind)
    ensures var steps := [Step(ref, None)];
            && AllRunnable(steps)
            && RunComposite(steps, args, runtime).status == Other(kind)
            && RunProgram(Compile(steps), args, runtime, show).status == Error
  {
    var steps := [Step(ref, None)];
    OneRefRouted(steps, ref);
    hide Strip, Mangle, CallFor, RunLines, RunChain, SandboxVars, Route, Table;
    ChainUnfolds(steps, args, map[], [], runtime);
    SafeStepUnfolds(steps, Table(steps), args, map[], [], runtime, show);
  }
}

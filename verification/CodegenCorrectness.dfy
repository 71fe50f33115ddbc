/**
 Exactly when the generated code behaves as the composite does.
 */
module CodegenCorrectness {
  import opened Basics
  import opened PythonText
  import opened ToolValues
  import opened CompositeChain
  import opened CompositeCodegen

  /** Same calls in the same order, success on the same runs, and then the same output. */
  predicate Agree(composite: Report, generated: Report) {
    && composite.calls == generated.calls
    && (composite.status == Success <==> generated.status == Success)
    && (composite.status == Success ==> composite.output == generated.output)
  }

  // ----- one argument -----

  /** A part of the path is asked of something that is neither an object nor falsy. */
  predicate CrossesScalar(v: Value, path: seq<string>) {
    exists k :: 0 <= k < |path| && !Traverse(v, path[..k]).Dict? && Truthy(Traverse(v, path[..k]))
  }

  /** The chained `.get` calls look the path up as the composite does, unless they hit a scalar and raise. */
  lemma {:induction false} PathEvaluates(parts: seq<string>, vars: Object, prev: Object)
    ensures Eval(PathExpr(parts), vars, prev) ==
            if CrossesScalar(Dict(prev), parts) then None else Some(Traverse(Dict(prev), parts))
  {
    if parts == [] {
    } else {
      var init := parts[..|parts| - 1];
      PathEvaluates(init, vars, prev);
      assert forall k :: 0 <= k <= |init| ==> parts[..k] == init[..k];
      assert init[..|init|] == init;
      if CrossesScalar(Dict(prev), init) {
        var k :| 0 <= k < |init| && !Traverse(Dict(prev), init[..k]).Dict? && Truthy(Traverse(Dict(prev), init[..k]));
        assert parts[..k] == init[..k];
      }
    }
  }

  /** When the generated expression yields the value the composite would pass. */
  predicate ArgSafe(expr: Value, args: Object, prev: Object, show: Value -> string) {
    if expr.Str? && StartsWith(expr.s, ARGS_PREFIX) then
      var key := expr.s[6..];
      if key == "args" then Get(args, "args") == Truncate(Dict(args), 1, show)
      else key in args ==> Shallow(args[key], 1)
    else if expr.Str? && StartsWith(expr.s, PREV_PREFIX) then
      !CrossesScalar(Dict(prev), Split(expr.s[6..], '.'))
    else true
  }

  lemma ArgEvaluates(expr: Value, args: Object, prev: Object, show: Value -> string)
    ensures Eval(Translate(expr), SandboxVars(args, show), prev) == Some(Resolve(expr, args, prev)) <==>
            ArgSafe(expr, args, prev, show)
  {
    if expr.Str? && StartsWith(expr.s, ARGS_PREFIX) {
      var key := expr.s[6..];
      if key in args {
        TruncateKeeps(args[key], 1, show);
      }
    } else if expr.Str? && StartsWith(expr.s, PREV_PREFIX) {
      PathEvaluates(Split(expr.s[6..], '.'), SandboxVars(args, show), prev);
    }
  }

  predicate ArgsSafe(raw: seq<(string, Value)>, args: Object, prev: Object, show: Value -> string) {
    forall i :: 0 <= i < |raw| ==> ArgSafe(raw[i].1, args, prev, show)
  }

  lemma {:induction false} ResolvedNames(raw: seq<(string, Value)>, args: Object, prev: Object, name: string)
    requires forall i :: 0 <= i < |raw| ==> raw[i].0 != name
    ensures name !in ResolveArgs(raw, args, prev)
  {
    if raw != [] {
      ResolvedNames(raw[..|raw| - 1], args, prev, name);
    }
  }

  lemma {:induction false} EvaluatedNames(kwargs: seq<(string, Expr)>, vars: Object, prev: Object, name: string)
    requires forall i :: 0 <= i < |kwargs| ==> kwargs[i].0 != name
    ensures EvalKwargs(kwargs, vars, prev).Some? ==> name !in EvalKwargs(kwargs, vars, prev).value
  {
    if kwargs != [] {
      EvaluatedNames(kwargs[..|kwargs| - 1], vars, prev, name);
    }
  }

  lemma BindEquals(earlier: Option<Object>, name: string, v: Option<Value>, wantedEarlier: Object, wanted: Value)
    requires name !in wantedEarlier
    requires earlier.Some? ==> name !in earlier.value
    ensures Bind(earlier, name, v) == Some(wantedEarlier[name := wanted]) <==>
            earlier == Some(wantedEarlier) && v == Some(wanted)
  {
    if Bind(earlier, name, v) == Some(wantedEarlier[name := wanted]) {
      var a, b := earlier.value, wantedEarlier;
      assert v.value == a[name := v.value][name] == b[name := wanted][name] == wanted;
      assert a == a[name := v.value] - {name} == b[name := wanted] - {name} == b;
    }
  }

  lemma {:induction false} ArgsEvaluate(raw: seq<(string, Value)>, args: Object, prev: Object, show: Value -> string)
    requires DistinctKeys(raw)
    ensures EvalKwargs(TranslateArgs(raw), SandboxVars(args, show), prev) == Some(ResolveArgs(raw, args, prev)) <==>
            ArgsSafe(raw, args, prev, show)
  {
    if raw != [] {
      var init, last := raw[..|raw| - 1], raw[|raw| - 1];
      var kwargs := TranslateArgs(raw);
      assert kwargs[..|raw| - 1] == TranslateArgs(init);
      ArgsEvaluate(init, args, prev, show);
      ArgEvaluates(last.1, args, prev, show);
      ResolvedNames(init, args, prev, last.0);
      EvaluatedNames(TranslateArgs(init), SandboxVars(args, show), prev, last.0);
      ArgsSafeSplits(raw, args, prev, show);
      hide Resolve, Translate, TranslateArgs, Eval, ArgSafe, ArgsSafe, SandboxVars, DistinctKeys, Bind;
      BindEquals(EvalKwargs(kwargs[..|raw| - 1], SandboxVars(args, show), prev), last.0,
                 Eval(Translate(last.1), SandboxVars(args, show), prev),
                 ResolveArgs(init, args, prev), Resolve(last.1, args, prev));
    }
  }

  lemma ArgsSafeSplits(raw: seq<(string, Value)>, args: Object, prev: Object, show: Value -> string)
    requires raw != []
    ensures ArgsSafe(raw, args, prev, show) <==>
            ArgsSafe(raw[..|raw| - 1], args, prev, show) && ArgSafe(raw[|raw| - 1].1, args, prev, show)
  {
    hide ArgSafe;
  }

  // ----- one step -----

  /** The call reaches the tool the step names, with the arguments the composite would pass. */
  predicate StepSafe(step: Step, table: map<string, string>, args: Object, prev: Object, show: Value -> string)
    requires step.Step?
  {
    && Route(table, Mangle(Strip(step.ref))) == Strip(step.ref)
    && ArgsSafe(ArgsOf(step), args, prev, show)
  }

  /** Every step the composite reaches is safe, and so is the output it ends with. */
  predicate SafeRun(steps: seq<Step>, table: map<string, string>, args: Object, prev: Object, calls: seq<Call>,
                    runtime: Runtime, show: Value -> string)
    requires AllRunnable(steps)
  {
    if steps == [] then ShallowObject(prev, 1)
    else
      var call := CallFor(steps[0], args, prev);
      var outcome := runtime(calls, call);
      && StepSafe(steps[0], table, args, prev, show)
      && (outcome.status == Success ==>
            SafeRun(steps[1..], table, args, outcome.output, calls + [call], runtime, show))
  }

  lemma {:induction false} LinesExtendCalls(lines: seq<Line>, table: map<string, string>, vars: Object, prev: Object,
                                            calls: seq<Call>, runtime: Runtime, show: Value -> string)
    ensures calls <= RunLines(lines, table, vars, prev, calls, runtime, show).calls
  {
    if lines != [] && EvalKwargs(lines[0].kwargs, vars, prev).Some? {
      var call := Call(Route(table, lines[0].ident), EvalKwargs(lines[0].kwargs, vars, prev).value);
      LinesExtendCalls(lines[1..], table, vars, runtime(calls, call).output, calls + [call], runtime, show);
    }
  }

  /** What the first line of a program does to the list of calls. */
  lemma FirstLineCalls(lines: seq<Line>, table: map<string, string>, vars: Object, prev: Object,
                       calls: seq<Call>, runtime: Runtime, show: Value -> string)
    requires lines != []
    ensures var made := RunLines(lines, table, vars, prev, calls, runtime, show).calls;
            match EvalKwargs(lines[0].kwargs, vars, prev)
            case None => made == calls
            case Some(kwargs) => calls + [Call(Route(table, lines[0].ident), kwargs)] <= made
  {
    hide EvalKwargs;
    var kwargs := EvalKwargs(lines[0].kwargs, vars, prev);
    if kwargs.Some? {
      var call := Call(Route(table, lines[0].ident), kwargs.value);
      LinesExtendCalls(lines[1..], table, vars, runtime(calls, call).output, calls + [call], runtime, show);
    }
  }

  /** A step that is not safe shows: the code raises before the call, or makes a different call. */
  lemma UnsafeStepShows(steps: seq<Step>, table: map<string, string>, args: Object, prev: Object, calls: seq<Call>,
                        runtime: Runtime, show: Value -> string)
    requires AllRunnable(steps) && steps != []
    requires !StepSafe(steps[0], table, args, prev, show)
    ensures RunChain(steps, args, prev, calls, runtime).calls !=
            RunLines(Body(steps), table, SandboxVars(args, show), prev, calls, runtime, show).calls
  {
    assert Body(steps)[0] == LineFor(steps[0]);
    ArgsEvaluate(ArgsOf(steps[0]), args, prev, show);
    FirstLineCalls(Body(steps), table, SandboxVars(args, show), prev, calls, runtime, show);
    FirstStepCalls(steps, args, prev, calls, runtime);
    hide Strip, Mangle, ResolveArgs, TranslateArgs, SandboxVars, ArgsSafe, RunChain, RunLines, Body, EvalKwargs;
    var call := CallFor(steps[0], args, prev);
    var made := RunChain(steps, args, prev, calls, runtime).calls;
    assert made[|calls|] == (calls + [call])[|calls|] == call;
  }

  lemma FirstStepCalls(steps: seq<Step>, args: Object, prev: Object, calls: seq<Call>, runtime: Runtime)
    requires AllRunnable(steps) && steps != []
    ensures calls + [CallFor(steps[0], args, prev)] <= RunChain(steps, args, prev, calls, runtime).calls
  {
    ChainUnfolds(steps, args, prev, calls, runtime);
    var call := CallFor(steps[0], args, prev);
    ChainExtends(steps[1..], args, runtime(calls, call).output, calls + [call], runtime);
  }

  // ----- whole runs -----

  /** A safe step makes the same call in both runs. */
  lemma SafeStepUnfolds(steps: seq<Step>, table: map<string, string>, args: Object, prev: Object, calls: seq<Call>,
                        runtime: Runtime, show: Value -> string)
    requires AllRunnable(steps) && steps != []
    requires StepSafe(steps[0], table, args, prev, show)
    ensures var call := CallFor(steps[0], args, prev);
            var outcome := runtime(calls, call);
            RunLines(Body(steps), table, SandboxVars(args, show), prev, calls, runtime, show) ==
            if outcome.status != Success then Report(Error, map[], calls + [call])
            else
              RunLines(Body(steps[1..]), table, SandboxVars(args, show), outcome.output, calls + [call], runtime, show)
  {
    assert Body(steps)[0] == LineFor(steps[0]);
    assert Body(steps)[1..] == Body(steps[1..]);
    ArgsEvaluate(ArgsOf(steps[0]), args, prev, show);
    hide Strip, Mangle, ResolveArgs, TranslateArgs, SandboxVars, ArgsSafe, EvalKwargs, Body;
  }

  lemma {:induction false} RunsAgree(steps: seq<Step>, table: map<string, string>, args: Object, prev: Object,
                                     calls: seq<Call>, runtime: Runtime, show: Value -> string)
    requires AllRunnable(steps)
    ensures Agree(RunChain(steps, args, prev, calls, runtime),
                  RunLines(Body(steps), table, SandboxVars(args, show), prev, calls, runtime, show)) <==>
            SafeRun(steps, table, args, prev, calls, runtime, show)
  {
    if steps == [] {
      TruncateKeepsObject(prev, 1, show);
    } else if !StepSafe(steps[0], table, args, prev, show) {
      UnsafeStepShows(steps, table, args, prev, calls, runtime, show);
    } else {
      SafeStepUnfolds(steps, table, args, prev, calls, runtime, show);
      ChainUnfolds(steps, args, prev, calls, runtime);
      hide Strip, Mangle, CallFor, SandboxVars, RunLines, RunChain, StepSafe, Body;
      var call := CallFor(steps[0], args, prev);
      RunsAgree(steps[1..], table, args, runtime(calls, call).output, calls + [call], runtime, show);
    }
  }

  /**
   The generated code agrees with the composite on a run exactly when the composite has steps and every
   step it reaches is routed to its own tool with arguments the sandbox reproduces.
   */
  lemma CompilerCorrect(steps: seq<Step>, args: Object, runtime: Runtime, show: Value -> string)
    requires AllRunnable(steps)
    ensures Agree(RunComposite(steps, args, runtime), RunProgram(Compile(steps), args, runtime, show)) <==>
            steps != [] && SafeRun(steps, Table(steps), args, map[], [], runtime, show)
  {
    RunsAgree(steps, Table(steps), args, map[], [], runtime, show);
  }

  /**
   A generated run ends in success or in the flat status error. So where the runs succeed together, their
   statuses are the same exactly when no call made by the composite fails in any other way.
   */
  lemma StatusMatches(steps: seq<Step>, args: Object, runtime: Runtime, show: Value -> string)
    requires AllRunnable(steps)
    requires RunComposite(steps, args, runtime).status == Success <==>
             RunProgram(Compile(steps), args, runtime, show).status == Success
    ensures var c := RunComposite(steps, args, runtime);
            c.status == RunProgram(Compile(steps), args, runtime, show).status <==>
            forall k :: 0 <= k < |c.calls| ==> !runtime(c.calls[..k], c.calls[k]).status.Other?
  {
    hide Strip, RunLines, RunChain, SandboxVars, Body, Table;
    FlatStatus(Body(steps), Table(steps), SandboxVars(args, show), map[], [], runtime, show);
    if steps != [] {
      OtherStatusIff(steps, args, runtime);
    }
  }

  /** A composite ends with a status other than success and error exactly when one of its calls does. */
  lemma OtherStatusIff(steps: seq<Step>, args: Object, runtime: Runtime)
    requires AllRunnable(steps) && steps != []
    ensures var c := RunChain(steps, args, map[], [], runtime);
            !c.status.Other? <==> forall k :: 0 <= k < |c.calls| ==> !runtime(c.calls[..k], c.calls[k]).status.Other?
  {
    hide Strip, RunChain;
    var c := RunChain(steps, args, map[], [], runtime);
    ChainEndsWith(steps, args, map[], [], runtime);
    forall k | 0 <= k < |c.calls|
      ensures runtime(c.calls[..k], c.calls[k]).status.Other? ==> c.status.Other?
    {
      if k < |c.calls| - 1 {
        ChainStopsAtFailure(steps, args, map[], [], runtime, k);
      } else {
        LastStatus(steps, args, runtime, k);
      }
    }
    if c.status.Other? {
      var last := |c.calls| - 1;
      assert runtime(c.calls[..last], c.calls[last]).status.Other?;
    }
  }

  lemma LastStatus(steps: seq<Step>, args: Object, runtime: Runtime, k: nat)
    requires AllRunnable(steps)
    requires k == |RunChain(steps, args, map[], [], runtime).calls| - 1
    ensures var c := RunChain(steps, args, map[], [], runtime);
            runtime(c.calls[..k], c.calls[k]).status == c.status
  {
    hide Strip, RunChain;
    ChainEndsWith(steps, args, map[], [], runtime);
    ChainStopsAtFailure(steps, args, map[], [], runtime, k);
  }

  /** A chain that does not succeed ends with the call that failed, and with its status. */
  lemma {:induction false} ChainEndsWith(steps: seq<Step>, args: Object, prev: Object, calls: seq<Call>,
                                         runtime: Runtime)
    requires AllRunnable(steps)
    ensures var r := RunChain(steps, args, prev, calls, runtime);
            r.status != Success ==>
              |r.calls| > |calls| && r.status == runtime(r.calls[..|r.calls| - 1], r.calls[|r.calls| - 1]).status
  {
    hide Strip, CallFor, RunChain;
    if steps == [] {
      EmptyChain(args, prev, calls, runtime);
    } else {
      ChainUnfolds(steps, args, prev, calls, runtime);
      var call := CallFor(steps[0], args, prev);
      assert (calls + [call])[..|calls|] == calls;
      ChainEndsWith(steps[1..], args, runtime(calls, call).output, calls + [call], runtime);
    }
  }

  lemma EmptyChain(args: Object, prev: Object, calls: seq<Call>, runtime: Runtime)
    ensures RunChain([], args, prev, calls, runtime) == Report(Success, prev, calls)
  {
  }

  lemma {:induction false} FlatStatus(lines: seq<Line>, table: map<string, string>, vars: Object, prev: Object,
                                      calls: seq<Call>, runtime: Runtime, show: Value -> string)
    ensures !RunLines(lines, table, vars, prev, calls, runtime, show).status.Other?
  {
    hide EvalKwargs;
    if lines != [] && EvalKwargs(lines[0].kwargs, vars, prev).Some? {
      var call := Call(Route(table, lines[0].ident), EvalKwargs(lines[0].kwargs, vars, prev).value);
      FlatStatus(lines[1..], table, vars, runtime(calls, call).output, calls + [call], runtime, show);
    }
  }

  // ----- identifiers that collide -----

  function RefAt(steps: seq<Step>, i: nat): string
    requires AllRunnable(steps) && i < |steps|
  {
    Strip(steps[i].ref)
  }

  /** Distinct refs keep distinct identifiers. */
  predicate NoCollision(steps: seq<Step>)
    requires AllRunnable(steps)
  {
    forall i, j :: 0 <= i < |steps| && 0 <= j < |steps| && Mangle(RefAt(steps, i)) == Mangle(RefAt(steps, j)) ==>
                     RefAt(steps, i) == RefAt(steps, j)
  }

  /** The table sends an identifier to the last step that claims it. */
  lemma {:induction false} RoutesToLast(steps: seq<Step>, i: nat) returns (j: nat)
    requires AllRunnable(steps) && i < |steps|
    ensures i <= j < |steps| && Mangle(RefAt(steps, j)) == Mangle(RefAt(steps, i))
    ensures forall k :: j < k < |steps| ==> Mangle(RefAt(steps, k)) != Mangle(RefAt(steps, i))
    ensures Route(Table(steps), Mangle(RefAt(steps, i))) == RefAt(steps, j)
  {
    hide Strip, Mangle;
    var n := |steps| - 1;
    if Mangle(RefAt(steps, n)) == Mangle(RefAt(steps, i)) {
      j := n;
    } else {
      var init := steps[..n];
      assert forall k :: 0 <= k < n ==> RefAt(init, k) == RefAt(steps, k);
      j := RoutesToLast(init, i);
    }
  }

  /** Every step reaches its own tool exactly when no two different refs share an identifier. */
  lemma RoutedIffNoCollision(steps: seq<Step>)
    requires AllRunnable(steps)
    ensures NoCollision(steps) <==>
            forall i :: 0 <= i < |steps| ==> Route(Table(steps), Mangle(RefAt(steps, i))) == RefAt(steps, i)
  {
    hide Strip, Mangle;
    forall i | 0 <= i < |steps| && NoCollision(steps)
      ensures Route(Table(steps), Mangle(RefAt(steps, i))) == RefAt(steps, i)
    {
      var j := RoutesToLast(steps, i);
    }
  }

  /** When two refs share an identifier, the earlier step's call, if made at all, goes to the later step's tool. */
  lemma CollisionMisroutes(steps: seq<Step>, i: nat, j: nat, args: Object, runtime: Runtime, show: Value -> string)
    requires AllRunnable(steps) && i < j < |steps|
    requires Mangle(RefAt(steps, i)) == Mangle(RefAt(steps, j)) && RefAt(steps, i) != RefAt(steps, j)
    requires forall k :: j < k < |steps| ==> Mangle(RefAt(steps, k)) != Mangle(RefAt(steps, i))
    ensures var made := RunProgram(Compile(steps), args, runtime, show).calls;
            i < |made| ==> made[i].ref == RefAt(steps, j)
    ensures var made := RunComposite(steps, args, runtime).calls;
            i < |made| ==> made[i].ref == RefAt(steps, i)
  {
    hide Strip, Mangle, RunLines, RunChain;
    var last := RoutesToLast(steps, i);
    LineCallsRouted(Body(steps), Table(steps), SandboxVars(args, show), map[], [], runtime, show, i);
    if i < |RunComposite(steps, args, runtime).calls| {
      CallsFollowSteps(steps, args, map[], [], runtime, i);
    }
  }

  lemma {:induction false} LineCallsRouted(lines: seq<Line>, table: map<string, string>, vars: Object, prev: Object,
                                           calls: seq<Call>, runtime: Runtime, show: Value -> string, k: nat)
    ensures var made := RunLines(lines, table, vars, prev, calls, runtime, show).calls;
            |made| <= |calls| + |lines|
            && (|calls| <= k < |made| ==> made[k].ref == Route(table, lines[k - |calls|].ident))
  {
    if lines != [] {
      FirstLineCalls(lines, table, vars, prev, calls, runtime, show);
      hide EvalKwargs, Route;
      var kwargs := EvalKwargs(lines[0].kwargs, vars, prev);
      if kwargs.Some? {
        var call := Call(Route(table, lines[0].ident), kwargs.value);
        LineCallsRouted(lines[1..], table, vars, runtime(calls, call).output, calls + [call], runtime, show, k);
        assert (calls + [call])[|calls|] == call;
      }
    }
  }
}

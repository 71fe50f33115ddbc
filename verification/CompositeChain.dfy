/**
 `CompositeExecutor`: runs a stored list of tool calls left to right, feeding each
 call the previous call's output, and stops at the first failure.
 */
module CompositeChain {
  import opened Basics
  import opened PythonText
  import opened ToolValues

  /** A stored step; `args` is None when absent or not an object. */
  datatype Step = NotAnObject | Step(ref: string, args: Option<Args>)

  /** An object as Python holds it: entries in insertion order, each key once. */
  type Args = entries: seq<(string, Value)> | DistinctKeys(entries) witness []

  predicate DistinctKeys(entries: seq<(string, Value)>) {
    forall i, j :: 0 <= i < j < |entries| ==> entries[i].0 != entries[j].0
  }

  datatype Call = Call(ref: string, args: Object)

  datatype Status = Success | Error | Other(kind: string)

  datatype Outcome = Outcome(status: Status, output: Object)

  /** The tool runtime as an oracle: what a call returns may depend on every call made before it. */
  type Runtime = (seq<Call>, Call) -> Outcome

  /** What an observer of a whole run sees. */
  datatype Report = Report(status: Status, output: Object, calls: seq<Call>)

  // ----- argument expressions -----

  /** `_traverse`: a missing key or a non-object on the way gives None. */
  function Traverse(v: Value, path: seq<string>): Value {
    if path == [] then v
    else
      var w := Traverse(v, path[..|path| - 1]);
      if w.Dict? then Get(w.entries, path[|path| - 1]) else Null
  }

  method TraverseLoop(source: Object, path: string) returns (r: Value)
    ensures r == Traverse(Dict(source), Split(path, '.'))
  {
    var parts := Split(path, '.');
    r := Dict(source);
    for i := 0 to |parts|
      invariant r == Traverse(Dict(source), parts[..i])
    {
      assert parts[..i + 1][..i] == parts[..i];
      if r.Dict? {
        r := Get(r.entries, parts[i]);
      } else {
        NullFromHere(Dict(source), parts, i);
        return Null;
      }
    }
    assert parts[..|parts|] == parts;
  }

  lemma {:induction false} NullFromHere(v: Value, path: seq<string>, i: nat)
    requires i < |path| && !Traverse(v, path[..i]).Dict?
    ensures Traverse(v, path) == Null
  {
    var init := path[..|path| - 1];
    if i < |path| - 1 {
      assert init[..i] == path[..i];
      NullFromHere(v, init, i);
    }
  }

  const ARGS_PREFIX := "$args."
  const PREV_PREFIX := "$prev."

  /** The value a composite passes for one argument expression. */
  function Resolve(expr: Value, args: Object, prev: Object): Value {
    if expr.Str? && StartsWith(expr.s, ARGS_PREFIX) then Get(args, expr.s[6..])
    else if expr.Str? && StartsWith(expr.s, PREV_PREFIX) then Traverse(Dict(prev), Split(expr.s[6..], '.'))
    else expr
  }

  function ResolveArgs(raw: seq<(string, Value)>, args: Object, prev: Object): Object {
    if raw == [] then map[]
    else
      var last := raw[|raw| - 1];
      ResolveArgs(raw[..|raw| - 1], args, prev)[last.0 := Resolve(last.1, args, prev)]
  }

  function ArgsOf(step: Step): Args
    requires step.Step?
  {
    if step.args.Some? then step.args.value else []
  }

  // ----- the executor -----

  predicate Runnable(step: Step) {
    step.Step? && Strip(step.ref) != ""
  }

  function CallFor(step: Step, args: Object, prev: Object): Call
    requires step.Step?
  {
    Call(Strip(step.ref), ResolveArgs(ArgsOf(step), args, prev))
  }

  /** The chain from some point on, given the last output and the calls made so far. */
  function RunChain(steps: seq<Step>, args: Object, prev: Object, calls: seq<Call>, runtime: Runtime): Report {
    if steps == [] then Report(Success, prev, calls)
    else if !Runnable(steps[0]) then Report(Error, map[], calls)
    else
      var call := CallFor(steps[0], args, prev);
      var outcome := runtime(calls, call);
      if outcome.status != Success then Report(outcome.status, map[], calls + [call])
      else RunChain(steps[1..], args, outcome.output, calls + [call], runtime)
  }

  function RunComposite(steps: seq<Step>, args: Object, runtime: Runtime): Report {
    if steps == [] then Report(Error, map[], []) else RunChain(steps, args, map[], [], runtime)
  }

  method ResolveScalar(value: string, incoming: Object, prev: Object) returns (r: Value)
    ensures r == Resolve(Str(value), incoming, prev)
  {
    if StartsWith(value, ARGS_PREFIX) {
      return Get(incoming, value[6..]);
    }
    if StartsWith(value, PREV_PREFIX) {
      r := TraverseLoop(prev, value[6..]);
      return;
    }
    return Str(value);
  }

  method ResolveAll(raw: seq<(string, Value)>, incoming: Object, prev: Object) returns (resolved: Object)
    ensures resolved == ResolveArgs(raw, incoming, prev)
  {
    resolved := map[];
    for k := 0 to |raw|
      invariant resolved == ResolveArgs(raw[..k], incoming, prev)
    {
      assert raw[..k + 1][..k] == raw[..k];
      var key, value := raw[k].0, raw[k].1;
      if value.Str? {
        var scalar := ResolveScalar(value.s, incoming, prev);
        resolved := resolved[key := scalar];
      } else {
        resolved := resolved[key := value];
      }
    }
    assert raw[..|raw|] == raw;
  }

  method Execute(steps: seq<Step>, args: Object, runtime: Runtime) returns (r: Report)
    ensures r == RunComposite(steps, args, runtime)
    ensures Chained(steps, args, runtime, r.calls) && Ends(steps, runtime, r)
  {
    CompositeTold(steps, args, runtime);
    hide Chained, Ends;
    if steps == [] {
      return Report(Error, map[], []);
    }
    hide Strip, ResolveArgs, Chained, Ends;
    var prev: Object := map[];
    var calls: seq<Call> := [];
    for index := 0 to |steps|
      invariant RunChain(steps, args, map[], [], runtime) == RunChain(steps[index..], args, prev, calls, runtime)
    {
      var step := steps[index];
      assert steps[index..][0] == step && steps[index..][1..] == steps[index + 1..];
      if step.NotAnObject? || Strip(step.ref) == "" {
        return Report(Error, map[], calls);
      }
      var resolved := ResolveAll(ArgsOf(step), args, prev);
      var call := Call(Strip(step.ref), resolved);
      var outcome := runtime(calls, call);
      calls := calls + [call];
      if outcome.status != Success {
        return Report(outcome.status, map[], calls);
      }
      prev := outcome.output;
    }
    return Report(Success, prev, calls);
  }

  // ----- what a run can look like -----

  /** One step of the chain. */
  lemma ChainUnfolds(steps: seq<Step>, args: Object, prev: Object, calls: seq<Call>, runtime: Runtime)
    requires steps != [] && Runnable(steps[0])
    ensures var call := CallFor(steps[0], args, prev);
            var outcome := runtime(calls, call);
            RunChain(steps, args, prev, calls, runtime) ==
            if outcome.status != Success then Report(outcome.status, map[], calls + [call])
            else RunChain(steps[1..], args, outcome.output, calls + [call], runtime)
  {
  }

  lemma {:induction false} ChainExtends(steps: seq<Step>, args: Object, prev: Object, calls: seq<Call>,
                                        runtime: Runtime)
    ensures var r := RunChain(steps, args, prev, calls, runtime);
            && calls <= r.calls
            && |r.calls| <= |calls| + |steps|
            && (r.status == Success ==> |r.calls| == |calls| + |steps|)
  {
    if steps != [] && Runnable(steps[0]) {
      ChainUnfolds(steps, args, prev, calls, runtime);
      hide Strip, ResolveArgs, Runnable;
      var call := CallFor(steps[0], args, prev);
      ChainExtends(steps[1..], args, runtime(calls, call).output, calls + [call], runtime);
    }
  }

  /** Calls are made in step order, one for each step reached. */
  lemma {:induction false} CallsFollowSteps(steps: seq<Step>, args: Object, prev: Object, calls: seq<Call>,
                                            runtime: Runtime, k: nat)
    requires |calls| <= k < |RunChain(steps, args, prev, calls, runtime).calls|
    ensures k - |calls| < |steps| && Runnable(steps[k - |calls|])
    ensures RunChain(steps, args, prev, calls, runtime).calls[k].ref == Strip(steps[k - |calls|].ref)
  {
    hide Strip, ResolveArgs;
    ChainExtends(steps, args, prev, calls, runtime);
    assert steps != [] && Runnable(steps[0]);
    ChainUnfolds(steps, args, prev, calls, runtime);
    var call := CallFor(steps[0], args, prev);
    var next := calls + [call];
    var output := runtime(calls, call).output;
    ChainExtends(steps[1..], args, output, next, runtime);
    if k > |calls| {
      CallsFollowSteps(steps[1..], args, output, next, runtime, k);
    }
  }

  /** Every call before the last succeeded, and a successful run returns what its last call returned. */
  lemma {:induction false} ChainStopsAtFailure(steps: seq<Step>, args: Object, prev: Object, calls: seq<Call>,
                                               runtime: Runtime, k: nat)
    requires |calls| <= k < |RunChain(steps, args, prev, calls, runtime).calls|
    ensures var r := RunChain(steps, args, prev, calls, runtime);
            var outcome := runtime(r.calls[..k], r.calls[k]);
            && (k < |r.calls| - 1 ==> outcome.status == Success)
            && (k == |r.calls| - 1 && r.status == Success ==> outcome == Outcome(Success, r.output))
  {
    hide Strip, ResolveArgs;
    ChainExtends(steps, args, prev, calls, runtime);
    assert steps != [] && Runnable(steps[0]);
    ChainUnfolds(steps, args, prev, calls, runtime);
    var call := CallFor(steps[0], args, prev);
    var next := calls + [call];
    var outcome := runtime(calls, call);
    var r := RunChain(steps, args, prev, calls, runtime);
    assert r.calls[..|calls|] == calls;
    ChainExtends(steps[1..], args, outcome.output, next, runtime);
    if k > |calls| {
      ChainStopsAtFailure(steps[1..], args, outcome.output, next, runtime, k);
    }
  }

  // ----- the same run, told call by call -----

  /** The values met on the way: each step takes the named member of an object, and anything else gives None. */
  ghost predicate Walk(v: Value, path: seq<string>, nodes: seq<Value>) {
    && |nodes| == |path| + 1 && nodes[0] == v
    && forall i :: 0 <= i < |path| ==> Inside(nodes[i], path[i], nodes[i + 1])
  }

  ghost predicate Inside(v: Value, key: string, member: Value) {
    if v.Dict? && key in v.entries then member == v.entries[key] else member == Null
  }

  lemma {:induction false} TraverseWalks(v: Value, path: seq<string>) returns (nodes: seq<Value>)
    ensures Walk(v, path, nodes) && Traverse(v, path) == nodes[|path|]
  {
    if path == [] {
      nodes := [v];
    } else {
      var init := path[..|path| - 1];
      var earlier := TraverseWalks(v, init);
      assert Inside(Traverse(v, init), path[|path| - 1], Traverse(v, path));
      nodes := earlier + [Traverse(v, path)];
      hide Inside, Traverse;
      forall i | 0 <= i < |path|
        ensures Inside(nodes[i], path[i], nodes[i + 1])
      {
        if i < |init| {
          assert Inside(earlier[i], init[i], earlier[i + 1]);
        }
      }
    }
  }

  /** What an argument expression stands for: an argument, a value inside the last output, or itself. */
  ghost predicate StandsFor(expr: Value, args: Object, prev: Object, r: Value) {
    && (forall key :: expr == Str("$args." + key) ==> r == if key in args then args[key] else Null)
    && (forall path :: expr == Str("$prev." + path) ==> InsideAt(prev, path, r))
    && (Plain(expr) ==> r == expr)
  }

  ghost predicate Plain(expr: Value) {
    forall rest :: expr != Str("$args." + rest) && expr != Str("$prev." + rest)
  }

  /** The value at a dotted path inside the object. */
  ghost predicate InsideAt(d: Object, path: string, r: Value) {
    exists nodes :: Walk(Dict(d), Split(path, '.'), nodes) && nodes[|nodes| - 1] == r
  }

  lemma TraverseIsInside(d: Object, path: string)
    ensures InsideAt(d, path, Traverse(Dict(d), Split(path, '.')))
  {
    hide Split;
    var nodes := TraverseWalks(Dict(d), Split(path, '.'));
  }

  lemma AfterPrefix(s: string, rest: string)
    ensures s == "$args." + rest ==> StartsWith(s, ARGS_PREFIX) && !StartsWith(s, PREV_PREFIX) && s[6..] == rest
    ensures s == "$prev." + rest ==> StartsWith(s, PREV_PREFIX) && !StartsWith(s, ARGS_PREFIX) && s[6..] == rest
  {
    assert s == "$prev." + rest ==> s[1] == 'p';
    assert s == "$args." + rest ==> s[1] == 'a';
    assert s == "$args." + rest ==> s[6..] == rest;
    assert s == "$prev." + rest ==> s[6..] == rest;
  }

  lemma ResolveStandsFor(expr: Value, args: Object, prev: Object)
    ensures StandsFor(expr, args, prev, Resolve(expr, args, prev))
  {
    if expr.Str? {
      forall rest
        ensures expr.s == "$args." + rest ==> StartsWith(expr.s, ARGS_PREFIX) && expr.s[6..] == rest
        ensures expr.s == "$prev." + rest ==>
                  StartsWith(expr.s, PREV_PREFIX) && !StartsWith(expr.s, ARGS_PREFIX) && expr.s[6..] == rest
      {
        AfterPrefix(expr.s, rest);
      }
      if StartsWith(expr.s, PREV_PREFIX) {
        TraverseIsInside(prev, expr.s[6..]);
      }
      assert StartsWith(expr.s, ARGS_PREFIX) ==> expr.s == "$args." + expr.s[6..];
      assert StartsWith(expr.s, PREV_PREFIX) ==> expr.s == "$prev." + expr.s[6..];
      hide StartsWith, InsideAt, Traverse, Split;
    }
  }

  /** The entry's value is passed under its key. */
  ghost predicate Passed(entry: (string, Value), args: Object, prev: Object, passed: Object) {
    entry.0 in passed && StandsFor(entry.1, args, prev, passed[entry.0])
  }

  ghost predicate HasKey(entries: seq<(string, Value)>, key: string) {
    exists i :: 0 <= i < |entries| && entries[i].0 == key
  }

  /** The arguments passed: one for each entry, under its key, with the value its expression stands for. */
  ghost predicate Passes(entries: seq<(string, Value)>, args: Object, prev: Object, passed: Object) {
    && (forall k :: k in passed ==> HasKey(entries, k))
    && (forall i :: 0 <= i < |entries| ==> Passed(entries[i], args, prev, passed))
  }

  lemma PassesSnoc(entries: seq<(string, Value)>, last: (string, Value), args: Object, prev: Object, passed: Object,
                   v: Value)
    requires Passes(entries, args, prev, passed) && !HasKey(entries, last.0) && StandsFor(last.1, args, prev, v)
    ensures Passes(entries + [last], args, prev, passed[last.0 := v])
  {
    hide StandsFor;
    var more, now := entries + [last], passed[last.0 := v];
    forall k | k in now
      ensures HasKey(more, k)
    {
      if k == last.0 {
        assert more[|entries|].0 == k;
      } else {
        var i :| 0 <= i < |entries| && entries[i].0 == k;
        assert more[i].0 == k;
      }
    }
    forall i | 0 <= i < |more|
      ensures Passed(more[i], args, prev, now)
    {
      if i < |entries| {
        assert Passed(entries[i], args, prev, passed) && entries[i].0 != last.0;
      }
    }
  }

  lemma LastKeyNew(entries: seq<(string, Value)>)
    requires DistinctKeys(entries) && entries != []
    ensures DistinctKeys(entries[..|entries| - 1]) && !HasKey(entries[..|entries| - 1], entries[|entries| - 1].0)
  {
  }

  lemma {:induction false} ResolvedPass(entries: seq<(string, Value)>, args: Object, prev: Object)
    requires DistinctKeys(entries)
    ensures Passes(entries, args, prev, ResolveArgs(entries, args, prev))
  {
    if entries != [] {
      var init, last := entries[..|entries| - 1], entries[|entries| - 1];
      LastKeyNew(entries);
      hide Resolve, StandsFor, Passes, HasKey, DistinctKeys;
      ResolvedPass(init, args, prev);
      ResolveStandsFor(last.1, args, prev);
      PassesSnoc(init, last, args, prev, ResolveArgs(init, args, prev), Resolve(last.1, args, prev));
      assert entries == init + [last];
    }
  }

  /** The step's tool is called by its stripped name, with its own arguments. */
  ghost predicate StepCalled(step: Step, args: Object, prev: Object, call: Call) {
    && step.Step? && call.ref == Strip(step.ref) && call.ref != ""
    && Passes(if step.args.Some? then step.args.value else [], args, prev, call.args)
  }

  ghost function OutcomeAt(runtime: Runtime, calls: seq<Call>, k: nat): Outcome
    requires k < |calls|
  {
    runtime(calls[..k], calls[k])
  }

  /** What the k-th call (from 0) is fed: what the call before it returned. */
  ghost function OutputBefore(runtime: Runtime, calls: seq<Call>, k: nat): Object
    requires k <= |calls|
  {
    if k == 0 then map[] else OutcomeAt(runtime, calls, k - 1).output
  }

  /** The k-th call is the k-th step's, fed with what the call before it returned. */
  ghost predicate CalledAt(steps: seq<Step>, args: Object, runtime: Runtime, calls: seq<Call>, k: nat)
    requires k < |calls| <= |steps|
  {
    StepCalled(steps[k], args, OutputBefore(runtime, calls, k), calls[k])
  }

  /** One call for each step, in order, and every one before the last succeeded. */
  ghost predicate Chained(steps: seq<Step>, args: Object, runtime: Runtime, calls: seq<Call>) {
    && |calls| <= |steps|
    && (forall k: nat :: k < |calls| ==> CalledAt(steps, args, runtime, calls, k))
    && (forall k: nat :: k < |calls| - 1 ==> OutcomeAt(runtime, calls, k).status == Success)
  }

  /** Why the run ended there, and with what. */
  ghost predicate Ends(steps: seq<Step>, runtime: Runtime, r: Report) {
    var n := |r.calls|;
    if n > 0 && OutcomeAt(runtime, r.calls, n - 1).status != Success then
      r.status == OutcomeAt(runtime, r.calls, n - 1).status && r.output == map[]
    else if n < |steps| then
      r.status == Error && r.output == map[] && (steps[n].NotAnObject? || Strip(steps[n].ref) == "")
    else if n == 0 then r.status == Error && r.output == map[]
    else r.status == Success && r.output == OutcomeAt(runtime, r.calls, n - 1).output
  }

  lemma SamePrefix(runtime: Runtime, calls: seq<Call>, call: Call, k: nat)
    requires k <= |calls|
    ensures OutputBefore(runtime, calls + [call], k) == OutputBefore(runtime, calls, k)
    ensures k < |calls| ==> OutcomeAt(runtime, calls + [call], k) == OutcomeAt(runtime, calls, k)
    ensures k == |calls| ==> OutcomeAt(runtime, calls + [call], k) == runtime(calls, call)
  {
    assert (calls + [call])[..k] == calls[..k];
    assert calls[..|calls|] == calls;
    assert k > 0 ==> (calls + [call])[..k - 1] == calls[..k - 1];
  }

  lemma ChainedSnoc(steps: seq<Step>, args: Object, runtime: Runtime, calls: seq<Call>, call: Call)
    requires Chained(steps, args, runtime, calls) && |calls| < |steps|
    requires calls != [] ==> OutcomeAt(runtime, calls, |calls| - 1).status == Success
    requires StepCalled(steps[|calls|], args, OutputBefore(runtime, calls, |calls|), call)
    ensures Chained(steps, args, runtime, calls + [call])
    ensures OutcomeAt(runtime, calls + [call], |calls|) == runtime(calls, call)
  {
    hide StepCalled, OutputBefore, OutcomeAt;
    var more := calls + [call];
    SamePrefix(runtime, calls, call, |calls|);
    forall k: nat | k < |more|
      ensures CalledAt(steps, args, runtime, more, k)
      ensures k < |calls| ==> OutcomeAt(runtime, more, k).status == Success
    {
      SamePrefix(runtime, calls, call, k);
      assert k < |calls| ==> CalledAt(steps, args, runtime, calls, k);
    }
  }

  lemma CallForIs(step: Step, args: Object, prev: Object)
    requires Runnable(step)
    ensures StepCalled(step, args, prev, CallFor(step, args, prev))
  {
    hide Strip, Passes, ResolveArgs;
    ResolvedPass(ArgsOf(step), args, prev);
  }

  lemma StopsHere(steps: seq<Step>, args: Object, runtime: Runtime, calls: seq<Call>)
    requires |calls| <= |steps| && steps != [] && (|calls| < |steps| ==> !Runnable(steps[|calls|]))
    requires calls != [] ==> OutcomeAt(runtime, calls, |calls| - 1).status == Success
    ensures var r := RunChain(steps[|calls|..], args, OutputBefore(runtime, calls, |calls|), calls, runtime);
            r.calls == calls && Ends(steps, runtime, r)
  {
    hide Strip;
  }

  lemma FailsHere(steps: seq<Step>, runtime: Runtime, calls: seq<Call>)
    requires calls != [] && OutcomeAt(runtime, calls, |calls| - 1).status != Success
    ensures Ends(steps, runtime, Report(OutcomeAt(runtime, calls, |calls| - 1).status, map[], calls))
  {
    hide Strip;
  }

  lemma {:induction false} ChainTold(steps: seq<Step>, args: Object, runtime: Runtime, calls: seq<Call>)
    requires Chained(steps, args, runtime, calls) && steps != []
    requires calls != [] ==> OutcomeAt(runtime, calls, |calls| - 1).status == Success
    ensures var r := RunChain(steps[|calls|..], args, OutputBefore(runtime, calls, |calls|), calls, runtime);
            Chained(steps, args, runtime, r.calls) && Ends(steps, runtime, r)
    decreases |steps| - |calls|
  {
    var n := |calls|;
    assert n <= |steps|;
    if n < |steps| && Runnable(steps[n]) {
      hide *;
      var call := NextCall(steps, args, runtime, calls);
      if runtime(calls, call).status == Success {
        ChainTold(steps, args, runtime, calls + [call]);
      } else {
        FailsHere(steps, runtime, calls + [call]);
      }
    } else {
      hide Strip, CalledAt, Ends, RunChain, Runnable;
      StopsHere(steps, args, runtime, calls);
    }
  }

  lemma NextCall(steps: seq<Step>, args: Object, runtime: Runtime, calls: seq<Call>) returns (call: Call)
    requires Chained(steps, args, runtime, calls) && |calls| < |steps| && Runnable(steps[|calls|])
    requires calls != [] ==> OutcomeAt(runtime, calls, |calls| - 1).status == Success
    ensures Chained(steps, args, runtime, calls + [call])
    ensures OutcomeAt(runtime, calls + [call], |calls|) == runtime(calls, call)
    ensures OutputBefore(runtime, calls + [call], |calls + [call]|) == runtime(calls, call).output
    ensures var outcome := runtime(calls, call);
            RunChain(steps[|calls|..], args, OutputBefore(runtime, calls, |calls|), calls, runtime) ==
            if outcome.status != Success then Report(outcome.status, map[], calls + [call])
            else RunChain(steps[|calls + [call]|..], args, outcome.output, calls + [call], runtime)
  {
    var n, prev := |calls|, OutputBefore(runtime, calls, |calls|);
    IsStep(steps[n]);
    hide Strip, StepCalled, CalledAt, Runnable, CallFor, RunChain, Chained, OutcomeAt;
    call := CallFor(steps[n], args, prev);
    CallForIs(steps[n], args, prev);
    ChainedSnoc(steps, args, runtime, calls, call);
    ChainUnfoldsAt(steps, n, args, prev, calls, runtime);
    assert |calls + [call]| == n + 1;
  }

  lemma ChainUnfoldsAt(steps: seq<Step>, n: nat, args: Object, prev: Object, calls: seq<Call>, runtime: Runtime)
    requires n < |steps| && Runnable(steps[n]) && steps[n].Step?
    ensures var call := CallFor(steps[n], args, prev);
            var outcome := runtime(calls, call);
            RunChain(steps[n..], args, prev, calls, runtime) ==
            if outcome.status != Success then Report(outcome.status, map[], calls + [call])
            else RunChain(steps[n + 1..], args, outcome.output, calls + [call], runtime)
  {
    hide Runnable, CallFor, RunChain;
    var rest := steps[n..];
    assert rest[0] == steps[n] && rest[1..] == steps[n + 1..];
    ChainUnfolds(rest, args, prev, calls, runtime);
  }

  lemma IsStep(step: Step)
    requires Runnable(step)
    ensures step.Step?
  {
  }

  /** Every run makes its calls step by step and ends for a reason it reports. */
  lemma CompositeTold(steps: seq<Step>, args: Object, runtime: Runtime)
    ensures var r := RunComposite(steps, args, runtime);
            Chained(steps, args, runtime, r.calls) && Ends(steps, runtime, r)
  {
    hide Strip, StepCalled;
    if steps != [] {
      ChainTold(steps, args, runtime, []);
      assert steps[0..] == steps;
    }
  }
}

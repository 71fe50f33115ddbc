/**
 The composite-to-code compiler: `composite_to_code`, which turns a composite's steps into
 straight-line Python plus a table from generated identifiers to tool refs, and the sandbox run of
 that code through the bridge. The generated text is the rendering of a small program; the program's
 meaning is compared with the composite executor's.
 */
module CompositeCodegen {
  import opened Basics
  import opened PythonText
  import opened ToolValues
  import opened CompositeChain

  datatype Expr =
    | Literal(v: Value)
    | VarsGet(key: string)
    | PrevState
    | GetPart(inner: Expr, part: string)  // (inner or {}).get(part)

  /** `prev_state = ident(kwargs...)`, under a comment naming the ref. */
  datatype Line = Line(ref: string, ident: string, kwargs: seq<(string, Expr)>)

  datatype Program = Program(body: seq<Line>, table: map<string, string>)

  // ----- translation -----

  /** `_ref_to_identifier` */
  function Mangle(ref: string): string {
    "call_" + Replace(Replace(ref, '.', '_'), '-', '_')
  }

  /** The identifier is the ref behind `call_`, with an underscore for every dot and dash and nothing else changed. */
  lemma MangleIs(ref: string)
    ensures |Mangle(ref)| == 5 + |ref| && Mangle(ref)[..5] == "call_"
    ensures forall i :: 0 <= i < |ref| ==>
              Mangle(ref)[5 + i] == if ref[i] == '.' || ref[i] == '-' then '_' else ref[i]
  {
  }

  function PathExpr(parts: seq<string>): Expr {
    if parts == [] then PrevState else GetPart(PathExpr(parts[..|parts| - 1]), parts[|parts| - 1])
  }

  function Translate(expr: Value): Expr {
    if expr.Str? && StartsWith(expr.s, ARGS_PREFIX) then VarsGet(expr.s[6..])
    else if expr.Str? && StartsWith(expr.s, PREV_PREFIX) then PathExpr(Split(expr.s[6..], '.'))
    else Literal(expr)
  }

  function TranslateArgs(raw: seq<(string, Value)>): seq<(string, Expr)> {
    seq(|raw|, i requires 0 <= i < |raw| => (raw[i].0, Translate(raw[i].1)))
  }

  function LineFor(step: Step): Line
    requires step.Step?
  {
    Line(Strip(step.ref), Mangle(Strip(step.ref)), TranslateArgs(ArgsOf(step)))
  }

  function Body(steps: seq<Step>): seq<Line>
    requires forall i :: 0 <= i < |steps| ==> steps[i].Step?
  {
    seq(|steps|, i requires 0 <= i < |steps| => LineFor(steps[i]))
  }

  /** `ident_to_ref`: a later step overwrites an earlier one with the same identifier. */
  function Table(steps: seq<Step>): map<string, string>
    requires forall i :: 0 <= i < |steps| ==> steps[i].Step?
  {
    if steps == [] then map[]
    else
      var ref := Strip(steps[|steps| - 1].ref);
      Table(steps[..|steps| - 1])[Mangle(ref) := ref]
  }

  predicate AllRunnable(steps: seq<Step>) {
    forall i :: 0 <= i < |steps| ==> Runnable(steps[i])
  }

  function Compile(steps: seq<Step>): Program
    requires AllRunnable(steps)
  {
    Program(Body(steps), Table(steps))
  }

  // ----- rendering -----

  function RenderExpr(e: Expr, repr: Value -> string): string {
    match e
    case Literal(v) => repr(v)
    case VarsGet(key) => "vars.get(" + repr(Str(key)) + ")"
    case PrevState => "prev_state"
    case GetPart(inner, part) => "(" + RenderExpr(inner, repr) + " or {}).get(" + repr(Str(part)) + ")"
  }

  function RenderKwargs(kwargs: seq<(string, Expr)>, repr: Value -> string): string {
    Join(", ", seq(|kwargs|, i requires 0 <= i < |kwargs| => kwargs[i].0 + "=" + RenderExpr(kwargs[i].1, repr)))
  }

  function RenderBody(body: seq<Line>, repr: Value -> string): seq<string> {
    if body == [] then []
    else
      var init, last := body[..|body| - 1], body[|body| - 1];
      RenderBody(init, repr)
      + ["# step " + Decimal(|init|) + ": " + last.ref,
         "prev_state = " + last.ident + "(" + RenderKwargs(last.kwargs, repr) + ")",
         ""]
  }

  function RenderProgram(p: Program, repr: Value -> string): string {
    Join("\n", ["prev_state = {}", ""] + RenderBody(p.body, repr) + ["result = prev_state"])
  }

  lemma OnePartRenders(path: string, repr: Value -> string)
    ensures '.' !in path ==>
              RenderExpr(PathExpr(Split(path, '.')), repr) == "(prev_state or {}).get(" + repr(Str(path)) + ")"
  {
    if '.' !in path {
      SplitWithout(path, '.');
      OnePart(path);
      hide PathExpr, Split;
      assert RenderExpr(PrevState, repr) == "prev_state";
      assert "(" + "prev_state" + " or {}).get(" == "(prev_state or {}).get(";
    }
  }

  lemma OnePart(path: string)
    ensures PathExpr([path]) == GetPart(PrevState, path)
  {
    assert [path][..0] == [];
  }

  // ----- the text, told by its pieces -----

  /** The text of a path into the last output: one `.get` wrapped around the text of the path before it. */
  ghost predicate PathText(parts: seq<string>, repr: Value -> string, code: string) {
    if parts == [] then code == "prev_state"
    else exists inner :: PathText(parts[..|parts| - 1], repr, inner) &&
           code == "(" + inner + " or {}).get(" + repr(Str(parts[|parts| - 1])) + ")"
  }

  /** The text of an argument expression. */
  ghost predicate ArgText(expr: Value, repr: Value -> string, code: string) {
    && (forall key :: expr == Str("$args." + key) ==> code == "vars.get(" + repr(Str(key)) + ")")
    && (forall path :: expr == Str("$prev." + path) ==> PathText(Split(path, '.'), repr, code))
    && (Plain(expr) ==> code == repr(expr))
  }

  /** `name=code` for each argument, with commas between them. */
  ghost predicate KwText(raw: seq<(string, Value)>, repr: Value -> string, text: string) {
    exists pairs :: text == Join(", ", pairs) && PairsOf(raw, repr, pairs)
  }

  ghost predicate PairsOf(raw: seq<(string, Value)>, repr: Value -> string, pairs: seq<string>) {
    |pairs| == |raw| && forall i :: 0 <= i < |raw| ==> PairText(raw[i], repr, pairs[i])
  }

  ghost predicate PairText(pair: (string, Value), repr: Value -> string, text: string) {
    exists code :: ArgText(pair.1, repr, code) && text == pair.0 + "=" + code
  }

  /** The ref behind `call_`, with an underscore for every dot and dash. */
  ghost predicate NameText(ref: string, ident: string) {
    && |ident| == 5 + |ref| && ident[..5] == "call_"
    && forall i :: 0 <= i < |ref| ==> ident[5 + i] == if ref[i] == '.' || ref[i] == '-' then '_' else ref[i]
  }

  /** The comment and the call of the step at `index`, and the blank line after them. */
  ghost predicate StepText(step: Step, index: nat, repr: Value -> string, comment: string, call: string, blank: string)
    requires step.Step?
  {
    && comment == "# step " + Decimal(index) + ": " + Strip(step.ref)
    && (exists ident, kwargs :: NameText(Strip(step.ref), ident) && KwText(ArgsOf(step), repr, kwargs) &&
          call == "prev_state = " + ident + "(" + kwargs + ")")
    && blank == ""
  }

  /** The whole text: two lines, three for each step, and a last one. */
  ghost predicate CodeText(steps: seq<Step>, repr: Value -> string, lines: seq<string>)
    requires AllRunnable(steps)
  {
    && |lines| == 3 * |steps| + 3
    && lines[0] == "prev_state = {}" && lines[1] == "" && lines[|lines| - 1] == "result = prev_state"
    && forall k: nat :: k < |steps| ==>
         StepText(steps[k], k, repr, lines[3 * k + 2], lines[3 * k + 3], lines[3 * k + 4])
  }

  lemma {:induction false} PathTold(parts: seq<string>, repr: Value -> string)
    ensures PathText(parts, repr, RenderExpr(PathExpr(parts), repr))
  {
    if parts != [] {
      PathTold(parts[..|parts| - 1], repr);
    }
  }

  lemma ArgTold(expr: Value, repr: Value -> string)
    ensures ArgText(expr, repr, RenderExpr(Translate(expr), repr))
  {
    if expr.Str? {
      forall rest
        ensures expr.s == "$args." + rest ==> StartsWith(expr.s, ARGS_PREFIX) && expr.s[6..] == rest
        ensures expr.s == "$prev." + rest ==>
                  StartsWith(expr.s, PREV_PREFIX) && !StartsWith(expr.s, ARGS_PREFIX) && expr.s[6..] == rest
      {
        AfterPrefix(expr.s, rest);
      }
      if StartsWith(expr.s, PREV_PREFIX) {
        PathTold(Split(expr.s[6..], '.'), repr);
      }
      assert StartsWith(expr.s, ARGS_PREFIX) ==> expr.s == "$args." + expr.s[6..];
      assert StartsWith(expr.s, PREV_PREFIX) ==> expr.s == "$prev." + expr.s[6..];
      hide StartsWith, PathText, PathExpr, Split;
    }
  }

  lemma KwTold(raw: seq<(string, Value)>, repr: Value -> string)
    ensures KwText(raw, repr, RenderKwargs(TranslateArgs(raw), repr))
  {
    hide ArgText, RenderExpr, Translate, Join;
    var kwargs := TranslateArgs(raw);
    var pairs := seq(|kwargs|, i requires 0 <= i < |kwargs| => kwargs[i].0 + "=" + RenderExpr(kwargs[i].1, repr));
    forall i | 0 <= i < |raw|
      ensures PairText(raw[i], repr, pairs[i])
    {
      ArgTold(raw[i].1, repr);
      assert pairs[i] == raw[i].0 + "=" + RenderExpr(Translate(raw[i].1), repr);
    }
    assert PairsOf(raw, repr, pairs);
  }

  lemma {:induction false} BodyLines(steps: seq<Step>, repr: Value -> string, k: nat)
    requires AllRunnable(steps)
    ensures |RenderBody(Body(steps), repr)| == 3 * |steps|
    ensures k < |steps| ==>
              var lines := RenderBody(Body(steps), repr);
              StepText(steps[k], k, repr, lines[3 * k], lines[3 * k + 1], lines[3 * k + 2])
  {
    hide Strip, Mangle, TranslateArgs, RenderKwargs, Decimal, KwText;
    if steps == [] {
      EmptyCompiles(repr);
    } else {
      var n := |steps| - 1;
      assert steps[..n + 1] == steps;
      BodyLines(steps[..n], repr, k);
      CompileSnoc(steps, n, repr);
      hide RenderBody, Body;
      var earlier, lines := RenderBody(Body(steps[..n]), repr), RenderBody(Body(steps), repr);
      if k == n {
        StepTold(steps[n], n, repr);
        assert lines[3 * n..] == lines[|earlier|..];
      }
    }
  }

  lemma StepTold(step: Step, index: nat, repr: Value -> string)
    requires Runnable(step)
    ensures var ref := Strip(step.ref);
            StepText(step, index, repr, "# step " + Decimal(index) + ": " + ref,
                     "prev_state = " + Mangle(ref) + "(" + RenderKwargs(TranslateArgs(ArgsOf(step)), repr) + ")", "")
  {
    hide Strip, Mangle, TranslateArgs, RenderKwargs, Decimal, KwText;
    MangleIs(Strip(step.ref));
    KwTold(ArgsOf(step), repr);
    assert NameText(Strip(step.ref), Mangle(Strip(step.ref)));
  }

  lemma CodeTold(steps: seq<Step>, repr: Value -> string)
    requires AllRunnable(steps)
    ensures CodeText(steps, repr,
                     ["prev_state = {}", ""] + RenderBody(Body(steps), repr) + ["result = prev_state"])
  {
    hide StepText, RenderBody, Body;
    var body := RenderBody(Body(steps), repr);
    var lines := ["prev_state = {}", ""] + body + ["result = prev_state"];
    BodyLines(steps, repr, |steps|);
    forall k: nat | k < |steps|
      ensures StepText(steps[k], k, repr, lines[3 * k + 2], lines[3 * k + 3], lines[3 * k + 4])
    {
      BodyLines(steps, repr, k);
      assert lines[3 * k + 2] == body[3 * k] && lines[3 * k + 3] == body[3 * k + 1];
      assert lines[3 * k + 4] == body[3 * k + 2];
    }
  }

  method ArgExprToPython(expr: Value, repr: Value -> string) returns (code: string)
    ensures code == RenderExpr(Translate(expr), repr)
    ensures expr.Str? && "$args." <= expr.s ==> code == "vars.get(" + repr(Str(expr.s[6..])) + ")"
    ensures expr.Str? && "$prev." <= expr.s && '.' !in expr.s[6..] ==>
              code == "(prev_state or {}).get(" + repr(Str(expr.s[6..])) + ")"
    ensures (!expr.Str? || !("$args." <= expr.s || "$prev." <= expr.s)) ==> code == repr(expr)
    ensures ArgText(expr, repr, code)
  {
    ArgTold(expr, repr);
    hide ArgText;
    if expr.Str? {
      if StartsWith(expr.s, ARGS_PREFIX) {
        var key := expr.s[6..];
        assert expr.s[1] == 'a' && "$prev."[1] == 'p';
        return "vars.get(" + repr(Str(key)) + ")";
      }
      if StartsWith(expr.s, PREV_PREFIX) {
        var parts := Split(expr.s[6..], '.');
        var inner := "prev_state";
        for idx := 0 to |parts|
          invariant inner == RenderExpr(PathExpr(parts[..idx]), repr)
        {
          assert parts[..idx + 1][..idx] == parts[..idx];
          inner := "(" + inner + " or {}).get(" + repr(Str(parts[idx])) + ")";
        }
        assert parts[..|parts|] == parts;
        OnePartRenders(expr.s[6..], repr);
        return inner;
      }
    }
    return repr(expr);
  }

  method KwPairs(raw: seq<(string, Value)>, repr: Value -> string) returns (text: string)
    ensures text == RenderKwargs(TranslateArgs(raw), repr) && KwText(raw, repr, text)
  {
    KwTold(raw, repr);
    hide KwText, ArgText;
    var pairs: seq<string> := [];
    for k := 0 to |raw|
      invariant |pairs| == k
      invariant forall i :: 0 <= i < k ==> pairs[i] == raw[i].0 + "=" + RenderExpr(Translate(raw[i].1), repr)
    {
      var code := ArgExprToPython(raw[k].1, repr);
      pairs := pairs + [raw[k].0 + "=" + code];
    }
    text := Join(", ", pairs);
    var kwargs := TranslateArgs(raw);
    assert pairs == seq(|kwargs|, i requires 0 <= i < |kwargs| => kwargs[i].0 + "=" + RenderExpr(kwargs[i].1, repr));
  }

  /** Adding a step adds its three lines and its table entry. */
  lemma CompileSnoc(steps: seq<Step>, index: nat, repr: Value -> string)
    requires index < |steps| && AllRunnable(steps[..index]) && Runnable(steps[index])
    ensures AllRunnable(steps[..index + 1])
    ensures var ref := Strip(steps[index].ref);
            && Table(steps[..index + 1]) == Table(steps[..index])[Mangle(ref) := ref]
            && RenderBody(Body(steps[..index + 1]), repr) ==
               RenderBody(Body(steps[..index]), repr)
               + ["# step " + Decimal(index) + ": " + ref,
                  "prev_state = " + Mangle(ref) + "(" + RenderKwargs(TranslateArgs(ArgsOf(steps[index])), repr) + ")",
                  ""]
  {
    hide Strip, Mangle, TranslateArgs, RenderKwargs, Decimal;
    var done := steps[..index + 1];
    assert done[..index] == steps[..index];
    assert Body(done)[..index] == Body(steps[..index]);
    assert Body(done)[index] == LineFor(steps[index]);
  }

  /** Generation fails at the first step that has no usable ref, and then yields nothing. */
  method CompositeToCode(steps: seq<Step>, repr: Value -> string)
    returns (r: Result<(string, map<string, string>), nat>)
    ensures r.Ok? <==> AllRunnable(steps)
    ensures r.Ok? ==> r.value == (RenderProgram(Compile(steps), repr), Table(steps))
    ensures r.Ok? ==> exists lines :: CodeText(steps, repr, lines) && r.value.0 == Join("\n", lines)
    ensures r.Err? ==> r.error < |steps| && !Runnable(steps[r.error]) && AllRunnable(steps[..r.error])
  {
    hide Strip, Mangle, TranslateArgs, RenderKwargs, Decimal, Body, RenderBody, Table, CodeText;
    var identToRef: map<string, string> := map[];
    var lines := ["prev_state = {}", ""];
    EmptyCompiles(repr);
    for index := 0 to |steps|
      invariant AllRunnable(steps[..index])
      invariant identToRef == Table(steps[..index])
      invariant lines == ["prev_state = {}", ""] + RenderBody(Body(steps[..index]), repr)
    {
      var step := steps[index];
      if step.NotAnObject? {
        return Err(index);
      }
      var ref := Strip(step.ref);
      if ref == "" {
        return Err(index);
      }
      var ident := Mangle(ref);
      var kwPairs := KwPairs(ArgsOf(step), repr);
      CompileSnoc(steps, index, repr);
      identToRef := identToRef[ident := ref];
      lines := lines + ["# step " + Decimal(index) + ": " + ref,
                        "prev_state = " + ident + "(" + kwPairs + ")",
                        ""];
    }
    assert steps[..|steps|] == steps;
    lines := lines + ["result = prev_state"];
    CodeTold(steps, repr);
    return Ok((Join("\n", lines), identToRef));
  }

  lemma EmptyCompiles(repr: Value -> string)
    ensures Table([]) == map[] && RenderBody(Body([]), repr) == []
  {
  }

  // ----- meaning of the generated program -----

  /** None is the AttributeError of calling `.get` on something that is not an object. */
  function Eval(e: Expr, vars: Object, prev: Object): Option<Value> {
    match e
    case Literal(v) => Some(v)
    case VarsGet(key) => Some(Get(vars, key))
    case PrevState => Some(Dict(prev))
    case GetPart(inner, part) =>
      match Eval(inner, vars, prev)
      case None => None
      case Some(v) =>
        if !Truthy(v) then Some(Null)
        else if v.Dict? then Some(Get(v.entries, part))
        else None
  }

  /** One more keyword argument, unless evaluating it or an earlier one raised. */
  function Bind(earlier: Option<Object>, name: string, v: Option<Value>): Option<Object> {
    if earlier.Some? && v.Some? then Some(earlier.value[name := v.value]) else None
  }

  function EvalKwargs(kwargs: seq<(string, Expr)>, vars: Object, prev: Object): Option<Object> {
    if kwargs == [] then Some(map[])
    else
      var last := kwargs[|kwargs| - 1];
      Bind(EvalKwargs(kwargs[..|kwargs| - 1], vars, prev), last.0, Eval(last.1, vars, prev))
  }

  /** `ident_to_ref.get(ident, ident)` */
  function Route(table: map<string, string>, ident: string): string {
    if ident in table then table[ident] else ident
  }

  /** `{**call.args, "args": dict(call.args)}` after the sandbox's coercion. */
  function SandboxVars(args: Object, show: Value -> string): Object {
    TruncateObject(args["args" := Dict(args)], 1, show)
  }

  /** Any exception, whether from an argument or from a failed tool, ends the run with status error. */
  function RunLines(lines: seq<Line>, table: map<string, string>, vars: Object, prev: Object, calls: seq<Call>,
                    runtime: Runtime, show: Value -> string): Report
  {
    if lines == [] then Report(Success, TruncateObject(prev, 1, show), calls)
    else
      match EvalKwargs(lines[0].kwargs, vars, prev)
      case None => Report(Error, map[], calls)
      case Some(kwargs) =>
        var call := Call(Route(table, lines[0].ident), kwargs);
        var outcome := runtime(calls, call);
        if outcome.status != Success then Report(Error, map[], calls + [call])
        else RunLines(lines[1..], table, vars, outcome.output, calls + [call], runtime, show)
  }

  function RunProgram(p: Program, args: Object, runtime: Runtime, show: Value -> string): Report {
    RunLines(p.body, p.table, SandboxVars(args, show), map[], [], runtime, show)
  }
}

/**
 Reading the generated Python back: a reader for the text that `composite_to_code` emits, written from the
 text's own forms, and the proof that it recovers the compiled program. How Python writes and reads literals
 (`repr`) is an oracle with an inverse.
 */
module GeneratedText {
  import opened Basics
  import opened PythonText
  import opened ToolValues
  import opened CompositeChain
  import opened CompositeCodegen
  import opened CodegenStatic

  /** Reads one literal from the front of a text, and returns it with the rest of the text. */
  type LiteralReader = string -> Option<(Value, string)>

  /** A literal ends where an argument list goes on or ends. */
  predicate EndsLiteral(rest: string) {
    rest == "" || rest[0] == ',' || rest[0] == ')'
  }

  /** `repr` writes the value on one line, not beginning like an expression, so that it can be read back. */
  ghost predicate Reads(v: Value, repr: Value -> string, literal: LiteralReader) {
    && (forall rest: string :: EndsLiteral(rest) ==> literal(repr(v) + rest) == Some((v, rest)))
    && OneLine(repr(v)) && StartsLiteral(repr(v))
  }

  /** Every string is written so. */
  ghost predicate Readable(repr: Value -> string, literal: LiteralReader) {
    forall s: string :: Reads(Str(s), repr, literal)
  }

  /** So is every value that the arguments hold. */
  ghost predicate ArgsReadable(raw: seq<(string, Value)>, repr: Value -> string, literal: LiteralReader) {
    forall i :: 0 <= i < |raw| ==> Reads(raw[i].1, repr, literal)
  }

  predicate OneLine(s: string) {
    '\n' !in s
  }

  predicate StartsLiteral(s: string) {
    s != "" && s[0] != '(' && s[0] != 'v' && s[0] != 'p'
  }

  // ----- the reader -----

  /** The text after a fixed piece of text, if it begins with that. */
  function After(text: string, piece: string): Option<string> {
    if piece <= text then Some(text[|piece|..]) else None
  }

  function ReadKey(text: string, literal: LiteralReader): Option<(string, string)> {
    match literal(text)
    case None => None
    case Some((v, rest)) =>
      if !v.Str? then None
      else
        match After(rest, ")")
        case None => None
        case Some(more) => Some((v.s, more))
  }

  /**
   `vars.get(KEY)`, `prev_state`, `(EXPR or {}).get(KEY)` or a literal.
   */
  function ReadExpr(text: string, literal: LiteralReader): Option<(Expr, string)> {
    if "vars.get(" <= text then
      match ReadKey(text[9..], literal)
      case None => None
      case Some((key, rest)) => Some((VarsGet(key), rest))
    else if "prev_state" <= text then Some((PrevState, text[10..]))
    else if "(" <= text then
      match ReadExpr(text[1..], literal)
      case None => None
      case Some((inner, rest)) =>
        match After(rest, " or {}).get(")
        case None => None
        case Some(more) =>
          match ReadKey(more, literal)
          case None => None
          case Some((part, end)) => Some((GetPart(inner, part), end))
    else
      match literal(text)
      case None => None
      case Some((v, rest)) => Some((Literal(v), rest))
  }

  /** The text up to the first `stop`, and what follows it. */
  function Upto(text: string, stop: char): Option<(string, string)> {
    if text == "" then None
    else if text[0] == stop then Some(("", text[1..]))
    else
      match Upto(text[1..], stop)
      case None => None
      case Some((head, rest)) => Some(([text[0]] + head, rest))
  }

  /** `KEY=EXPR, KEY=EXPR, ... KEY=EXPR)`; the whole text must be read. */
  function ReadArgs(text: string, literal: LiteralReader): Option<seq<(string, Expr)>>
    decreases |text|
  {
    match Upto(text, '=')
    case None => None
    case Some((key, value)) =>
      match ReadExpr(value, literal)
      case None => None
      case Some((expr, rest)) =>
        if rest == ")" then Some([(key, expr)])
        else
          match After(rest, ", ")
          case None => None
          case Some(more) =>
            if |more| >= |text| then None
            else
              match ReadArgs(more, literal)
              case None => None
              case Some(others) => Some([(key, expr)] + others)
  }

  /** `prev_state = IDENT(ARGS)` */
  function ReadCall(line: string, literal: LiteralReader): Option<(string, seq<(string, Expr)>)> {
    match After(line, "prev_state = ")
    case None => None
    case Some(call) =>
      match Upto(call, '(')
      case None => None
      case Some((ident, args)) =>
        if args == ")" then Some((ident, []))
        else
          match ReadArgs(args, literal)
          case None => None
          case Some(kwargs) => Some((ident, kwargs))
  }

  /** The number that decimal digits write; None for anything else. */
  function NumberOf(digits: string): Option<nat> {
    if digits == "" then None
    else
      var last := digits[|digits| - 1];
      if !('0' <= last <= '9') then None
      else if |digits| == 1 then Some((last - '0') as nat)
      else
        match NumberOf(digits[..|digits| - 1])
        case None => None
        case Some(n) => Some(10 * n + (last - '0') as nat)
  }

  /** `# step INDEX: REF` */
  function ReadComment(line: string): Option<(nat, string)> {
    match After(line, "# step ")
    case None => None
    case Some(rest) =>
      match Upto(rest, ':')
      case None => None
      case Some((digits, tail)) =>
        match (NumberOf(digits), After(tail, " "))
        case (Some(n), Some(ref)) => Some((n, ref))
        case _ => None
  }

  /** Three lines to a step, numbered from `index`, until the line that returns the result. */
  function ReadBody(lines: seq<string>, index: nat, literal: LiteralReader): Option<seq<Line>> {
    if lines == ["result = prev_state"] then Some([])
    else if |lines| < 4 || lines[2] != "" then None
    else
      match (ReadComment(lines[0]), ReadCall(lines[1], literal), ReadBody(lines[3..], index + 1, literal))
      case (Some((n, ref)), Some((ident, kwargs)), Some(others)) =>
        if n == index then Some([Line(ref, ident, kwargs)] + others) else None
      case _ => None
  }

  /** The program that a text holds. */
  function ReadProgram(text: string, literal: LiteralReader): Option<seq<Line>> {
    var lines := Split(text, '\n');
    if |lines| < 3 || lines[0] != "prev_state = {}" || lines[1] != "" then None
    else ReadBody(lines[2..], 0, literal)
  }

  // ----- pieces of text -----

  lemma AfterPiece(piece: string, rest: string)
    ensures After(piece + rest, piece) == Some(rest)
  {
  }

  lemma {:induction false} UptoStop(head: string, stop: char, rest: string)
    requires stop !in head
    ensures Upto(head + [stop] + rest, stop) == Some((head, rest))
  {
    var text := head + [stop] + rest;
    if head == "" {
      assert text == [stop] + rest;
    } else {
      assert text[1..] == head[1..] + [stop] + rest;
      UptoStop(head[1..], stop, rest);
      assert [head[0]] + head[1..] == head;
    }
  }

  lemma {:induction false} DecimalReads(n: nat)
    ensures NumberOf(Decimal(n)) == Some(n)
    ensures forall i :: 0 <= i < |Decimal(n)| ==> '0' <= Decimal(n)[i] <= '9'
  {
    DigitReads(n % 10);
    if n >= 10 {
      DecimalReads(n / 10);
      var s, digit := Decimal(n), "0123456789"[n % 10];
      assert s[..|s| - 1] == Decimal(n / 10) && s[|s| - 1] == digit;
    }
  }

  lemma DigitReads(d: nat)
    requires d < 10
    ensures '0' <= "0123456789"[d] <= '9' && ("0123456789"[d] - '0') as nat == d
  {
    var digits := "0123456789";
    assert digits[d] == ('0' as int + d) as char by {
      if d == 0 {} else if d == 1 {} else if d == 2 {} else if d == 3 {} else if d == 4 {}
      else if d == 5 {} else if d == 6 {} else if d == 7 {} else if d == 8 {} else {}
    }
  }

  // ----- expressions are read back -----

  lemma KeyReads(key: string, rest: string, repr: Value -> string, literal: LiteralReader)
    requires Readable(repr, literal)
    ensures ReadKey(repr(Str(key)) + ")" + rest, literal) == Some((key, rest))
  {
    assert Reads(Str(key), repr, literal);
    var tail := ")" + rest;
    assert EndsLiteral(tail);
    assert repr(Str(key)) + ")" + rest == repr(Str(key)) + tail;
    AfterPiece(")", rest);
  }

  lemma {:induction false} PathReads(parts: seq<string>, rest: string, repr: Value -> string, literal: LiteralReader)
    requires Readable(repr, literal)
    ensures ReadExpr(RenderExpr(PathExpr(parts), repr) + rest, literal) == Some((PathExpr(parts), rest))
  {
    hide Readable, ReadKey;
    if parts == [] {
      var text := "prev_state" + rest;
      assert text[0] == 'p' && "vars.get("[0] == 'v';
      assert text[10..] == rest;
    } else {
      var init, part := parts[..|parts| - 1], parts[|parts| - 1];
      var inner := RenderExpr(PathExpr(init), repr);
      var key := repr(Str(part)) + ")" + rest;
      var tail := " or {}).get(" + key;
      var text := RenderExpr(PathExpr(parts), repr) + rest;
      assert text == "(" + (inner + tail);
      assert text[1..] == inner + tail;
      PathReads(init, tail, repr, literal);
      AfterPiece(" or {}).get(", key);
      KeyReads(part, rest, repr, literal);
      assert text[0] == '(' && "vars.get("[0] == 'v' && "prev_state"[0] == 'p';
    }
  }

  lemma VarsReads(key: string, rest: string, repr: Value -> string, literal: LiteralReader)
    requires Readable(repr, literal)
    ensures ReadExpr("vars.get(" + repr(Str(key)) + ")" + rest, literal) == Some((VarsGet(key), rest))
  {
    KeyReads(key, rest, repr, literal);
    hide Readable, ReadKey;
    var text := "vars.get(" + repr(Str(key)) + ")" + rest;
    assert text[9..] == repr(Str(key)) + ")" + rest;
  }

  lemma LiteralReads(v: Value, rest: string, repr: Value -> string, literal: LiteralReader)
    requires Reads(v, repr, literal) && EndsLiteral(rest)
    ensures ReadExpr(repr(v) + rest, literal) == Some((Literal(v), rest))
  {
    var text := repr(v) + rest;
    assert StartsLiteral(repr(v));
    assert text[0] == repr(v)[0] && "vars.get("[0] == 'v' && "prev_state"[0] == 'p' && "("[0] == '(';
  }

  lemma ExprReads(expr: Value, rest: string, repr: Value -> string, literal: LiteralReader)
    requires Readable(repr, literal) && Reads(expr, repr, literal) && EndsLiteral(rest)
    ensures ReadExpr(RenderExpr(Translate(expr), repr) + rest, literal) == Some((Translate(expr), rest))
  {
    hide Readable, ReadExpr, PathExpr, Split;
    if expr.Str? && StartsWith(expr.s, ARGS_PREFIX) {
      VarsReads(expr.s[6..], rest, repr, literal);
    } else if expr.Str? && StartsWith(expr.s, PREV_PREFIX) {
      PathReads(Split(expr.s[6..], '.'), rest, repr, literal);
    } else {
      LiteralReads(expr, rest, repr, literal);
    }
  }

  // ----- calls are read back -----

  function OnePair(pair: (string, Expr), repr: Value -> string): string {
    pair.0 + "=" + RenderExpr(pair.1, repr)
  }

  lemma KwargsUnfold(kwargs: seq<(string, Expr)>, repr: Value -> string)
    requires kwargs != []
    ensures RenderKwargs(kwargs, repr) ==
            if |kwargs| == 1 then OnePair(kwargs[0], repr)
            else OnePair(kwargs[0], repr) + ", " + RenderKwargs(kwargs[1..], repr)
  {
    hide RenderExpr;
    var pairs := seq(|kwargs|, i requires 0 <= i < |kwargs| => kwargs[i].0 + "=" + RenderExpr(kwargs[i].1, repr));
    var rest := kwargs[1..];
    assert pairs[1..] == seq(|rest|, i requires 0 <= i < |rest| => rest[i].0 + "=" + RenderExpr(rest[i].1, repr));
  }

  /** Argument names that end at their equals sign. */
  predicate PlainKeys(raw: seq<(string, Value)>) {
    forall i :: 0 <= i < |raw| ==> '=' !in raw[i].0 && OneLine(raw[i].0)
  }

  lemma {:induction false} ArgsRead(raw: seq<(string, Value)>, repr: Value -> string, literal: LiteralReader)
    requires Readable(repr, literal) && ArgsReadable(raw, repr, literal) && raw != [] && PlainKeys(raw)
    ensures ReadArgs(RenderKwargs(TranslateArgs(raw), repr) + ")", literal) == Some(TranslateArgs(raw))
  {
    hide Readable, Reads, ReadExpr, RenderExpr, Translate, Upto, RenderKwargs;
    var kwargs := TranslateArgs(raw);
    var key, value := raw[0].0, RenderExpr(Translate(raw[0].1), repr);
    KwargsUnfold(kwargs, repr);
    var text := RenderKwargs(kwargs, repr) + ")";
    if |raw| == 1 {
      assert text == key + ['='] + (value + ")");
      UptoStop(key, '=', value + ")");
      ExprReads(raw[0].1, ")", repr, literal);
      assert [(key, Translate(raw[0].1))] == kwargs;
    } else {
      var others := raw[1..];
      assert kwargs[1..] == TranslateArgs(others);
      var more := RenderKwargs(TranslateArgs(others), repr) + ")";
      var rest := ", " + more;
      assert text == key + ['='] + (value + rest);
      UptoStop(key, '=', value + rest);
      ExprReads(raw[0].1, rest, repr, literal);
      AfterPiece(", ", more);
      ArgsRead(others, repr, literal);
      assert [(key, Translate(raw[0].1))] + TranslateArgs(others) == kwargs;
    }
  }

  lemma CallReads(ident: string, raw: seq<(string, Value)>, repr: Value -> string, literal: LiteralReader)
    requires Readable(repr, literal) && ArgsReadable(raw, repr, literal) && PlainKeys(raw) && '(' !in ident
    ensures ReadCall("prev_state = " + ident + "(" + RenderKwargs(TranslateArgs(raw), repr) + ")", literal) ==
            Some((ident, TranslateArgs(raw)))
  {
    hide Readable, ArgsReadable, ReadArgs, Upto, RenderExpr, Translate;
    var args := RenderKwargs(TranslateArgs(raw), repr) + ")";
    var line := "prev_state = " + ident + "(" + RenderKwargs(TranslateArgs(raw), repr) + ")";
    assert line == "prev_state = " + (ident + ['('] + args);
    AfterPiece("prev_state = ", ident + ['('] + args);
    UptoStop(ident, '(', args);
    if raw == [] {
      assert TranslateArgs(raw) == [];
    } else {
      KwargsUnfold(TranslateArgs(raw), repr);
      hide RenderKwargs;
      ArgsRead(raw, repr, literal);
    }
  }

  lemma CommentReads(index: nat, ref: string)
    ensures ReadComment("# step " + Decimal(index) + ": " + ref) == Some((index, ref))
  {
    hide NumberOf, Upto, Decimal;
    DecimalReads(index);
    var line := "# step " + Decimal(index) + ": " + ref;
    assert line == "# step " + (Decimal(index) + [':'] + (" " + ref));
    AfterPiece("# step ", Decimal(index) + [':'] + (" " + ref));
    UptoStop(Decimal(index), ':', " " + ref);
    AfterPiece(" ", ref);
  }

  // ----- the whole text is read back -----

  function Block(line: Line, index: nat, repr: Value -> string): seq<string> {
    ["# step " + Decimal(index) + ": " + line.ref,
     "prev_state = " + line.ident + "(" + RenderKwargs(line.kwargs, repr) + ")",
     ""]
  }

  /** The lines of the body, front to back. */
  function Blocks(body: seq<Line>, index: nat, repr: Value -> string): seq<string> {
    if body == [] then [] else Block(body[0], index, repr) + Blocks(body[1..], index + 1, repr)
  }

  lemma {:induction false} BlocksSnoc(body: seq<Line>, index: nat, repr: Value -> string)
    requires body != []
    ensures Blocks(body, index, repr) ==
            Blocks(body[..|body| - 1], index, repr) + Block(body[|body| - 1], index + |body| - 1, repr)
  {
    hide Block;
    if |body| > 1 {
      BlocksSnoc(body[1..], index + 1, repr);
      assert body[1..][..|body| - 2] == body[..|body| - 1][1..];
    }
  }

  lemma {:induction false} BodyIsBlocks(body: seq<Line>, repr: Value -> string)
    ensures RenderBody(body, repr) == Blocks(body, 0, repr)
  {
    if body != [] {
      BodyIsBlocks(body[..|body| - 1], repr);
      BlocksSnoc(body, 0, repr);
    }
  }

  /** Refs and argument names without the characters that would end a line, a name or an argument early. */
  predicate PlainNames(step: Step)
    requires step.Step?
  {
    var ref := Strip(step.ref);
    OneLine(ref) && '(' !in ref && PlainKeys(ArgsOf(step))
  }

  ghost predicate AllPlain(steps: seq<Step>, repr: Value -> string, literal: LiteralReader)
    requires AllRunnable(steps)
  {
    && Readable(repr, literal)
    && forall i :: 0 <= i < |steps| ==> PlainNames(steps[i]) && ArgsReadable(ArgsOf(steps[i]), repr, literal)
  }

  lemma MangledIsPlain(ref: string)
    requires OneLine(ref) && '(' !in ref
    ensures OneLine(Mangle(ref)) && '(' !in Mangle(ref)
  {
    var once := Replace(ref, '.', '_');
    var twice := Replace(once, '-', '_');
    assert Mangle(ref) == "call_" + twice;
    forall i | 0 <= i < |twice|
      ensures twice[i] != '\n' && twice[i] != '('
    {
      assert ref[i] in ref;
    }
  }

  lemma {:induction false} BlocksRead(steps: seq<Step>, index: nat, repr: Value -> string, literal: LiteralReader)
    requires AllRunnable(steps) && AllPlain(steps, repr, literal)
    ensures ReadBody(Blocks(Body(steps), index, repr) + ["result = prev_state"], index, literal) == Some(Body(steps))
  {
    hide Readable, ArgsReadable, Strip, Mangle, ReadCall, ReadComment, RenderKwargs, TranslateArgs, Decimal, PlainKeys;
    var last := ["result = prev_state"];
    if steps == [] {
      assert Body(steps) == [];
    } else {
      var step, rest := steps[0], steps[1..];
      var line := LineFor(step);
      assert Body(steps)[0] == line && Body(steps)[1..] == Body(rest);
      assert PlainNames(step);
      MangledIsPlain(Strip(step.ref));
      CommentReads(index, line.ref);
      CallReads(line.ident, ArgsOf(step), repr, literal);
      BlocksRead(rest, index + 1, repr, literal);
      var lines := Blocks(Body(steps), index, repr) + last;
      assert lines == Block(line, index, repr) + (Blocks(Body(rest), index + 1, repr) + last);
      assert lines[3..] == Blocks(Body(rest), index + 1, repr) + last;
      assert [line] + Body(rest) == Body(steps);
    }
  }

  lemma {:induction false} PathOneLine(parts: seq<string>, repr: Value -> string, literal: LiteralReader)
    requires Readable(repr, literal)
    ensures OneLine(RenderExpr(PathExpr(parts), repr))
  {
    if parts != [] {
      PathOneLine(parts[..|parts| - 1], repr, literal);
      assert Reads(Str(parts[|parts| - 1]), repr, literal);
    }
  }

  lemma ExprOneLine(expr: Value, repr: Value -> string, literal: LiteralReader)
    requires Readable(repr, literal) && Reads(expr, repr, literal)
    ensures OneLine(RenderExpr(Translate(expr), repr))
  {
    hide PathExpr, Split;
    if expr.Str? && StartsWith(expr.s, ARGS_PREFIX) {
      assert Reads(Str(expr.s[6..]), repr, literal);
    } else if expr.Str? && StartsWith(expr.s, PREV_PREFIX) {
      PathOneLine(Split(expr.s[6..], '.'), repr, literal);
    }
  }

  lemma {:induction false} ArgsOneLine(raw: seq<(string, Value)>, repr: Value -> string, literal: LiteralReader)
    requires Readable(repr, literal) && ArgsReadable(raw, repr, literal) && PlainKeys(raw)
    ensures OneLine(RenderKwargs(TranslateArgs(raw), repr))
  {
    hide Readable, Reads, RenderExpr, Translate;
    if raw != [] {
      var kwargs := TranslateArgs(raw);
      KwargsUnfold(kwargs, repr);
      ExprOneLine(raw[0].1, repr, literal);
      assert kwargs[1..] == TranslateArgs(raw[1..]);
      ArgsOneLine(raw[1..], repr, literal);
    }
  }

  predicate AllOneLine(lines: seq<string>) {
    forall i :: 0 <= i < |lines| ==> OneLine(lines[i])
  }

  lemma BlockOneLine(step: Step, index: nat, repr: Value -> string, literal: LiteralReader)
    requires Readable(repr, literal) && step.Step? && PlainNames(step) && ArgsReadable(ArgsOf(step), repr, literal)
    ensures AllOneLine(Block(LineFor(step), index, repr))
  {
    hide Readable, ArgsReadable, Strip, Mangle, RenderKwargs, TranslateArgs, Decimal, PlainKeys, NumberOf;
    MangledIsPlain(Strip(step.ref));
    DecimalReads(index);
    ArgsOneLine(ArgsOf(step), repr, literal);
  }

  lemma {:induction false} BlocksOneLine(steps: seq<Step>, index: nat, repr: Value -> string, literal: LiteralReader)
    requires AllRunnable(steps) && AllPlain(steps, repr, literal)
    ensures AllOneLine(Blocks(Body(steps), index, repr))
  {
    hide Readable, ArgsReadable, Block, PlainNames, Strip;
    if steps != [] {
      assert Body(steps)[0] == LineFor(steps[0]) && Body(steps)[1..] == Body(steps[1..]);
      BlockOneLine(steps[0], index, repr, literal);
      BlocksOneLine(steps[1..], index + 1, repr, literal);
    }
  }

  lemma {:induction false} SplitAtLine(line: string, rest: string)
    requires OneLine(line)
    ensures Split(line + "\n" + rest, '\n') == [line] + Split(rest, '\n')
  {
    var text := line + "\n" + rest;
    if line == "" {
      assert text[0] == '\n' && text[1..] == rest;
    } else {
      assert text[1..] == line[1..] + "\n" + rest;
      SplitAtLine(line[1..], rest);
      assert [line[0]] + line[1..] == line;
    }
  }

  lemma {:induction false} SplitOneLine(line: string)
    requires OneLine(line)
    ensures Split(line, '\n') == [line]
  {
    if line != "" {
      SplitOneLine(line[1..]);
      assert [line[0]] + line[1..] == line;
    }
  }

  /** Splitting a joined text at its line ends gives the lines back. */
  lemma {:induction false} SplitOfJoin(lines: seq<string>)
    requires lines != [] && AllOneLine(lines)
    ensures Split(Join("\n", lines), '\n') == lines
  {
    hide Split;
    if |lines| == 1 {
      SplitOneLine(lines[0]);
    } else {
      SplitOfJoin(lines[1..]);
      SplitAtLine(lines[0], Join("\n", lines[1..]));
    }
  }

  lemma FrameReads(blocks: seq<string>, literal: LiteralReader)
    requires AllOneLine(blocks)
    ensures ReadProgram(Join("\n", ["prev_state = {}", ""] + blocks + ["result = prev_state"]), literal) ==
            ReadBody(blocks + ["result = prev_state"], 0, literal)
  {
    hide Split, Join, ReadBody;
    var lines := ["prev_state = {}", ""] + blocks + ["result = prev_state"];
    assert AllOneLine(lines);
    SplitOfJoin(lines);
    assert lines[2..] == blocks + ["result = prev_state"];
  }

  /** The generated text, read back, is the compiled program. */
  lemma TextReadsBack(steps: seq<Step>, repr: Value -> string, literal: LiteralReader)
    requires AllRunnable(steps) && AllPlain(steps, repr, literal)
    ensures ReadProgram(RenderProgram(Compile(steps), repr), literal) == Some(Compile(steps).body)
  {
    hide Blocks, RenderBody, Join, AllPlain, Body, Strip, ReadProgram, ReadBody, AllOneLine, Table;
    BodyIsBlocks(Body(steps), repr);
    BlocksRead(steps, 0, repr, literal);
    BlocksOneLine(steps, 0, repr, literal);
    FrameReads(Blocks(Body(steps), 0, repr), literal);
  }

  /**
   What `composite_to_code` returns can be read back: the text as the compiled steps, and run with the table it
   comes with it makes the composite's calls for every runtime exactly when the steps are statically safe.
   */
  lemma GeneratedCodeAgreesIff(steps: seq<Step>, args: Object, text: string, table: map<string, string>,
                               repr: Value -> string, show: Value -> string, literal: LiteralReader)
    requires AllRunnable(steps) && AllPlain(steps, repr, literal) && steps != []
    requires (text, table) == (RenderProgram(Compile(steps), repr), Table(steps))
    ensures ReadProgram(text, literal).Some?
    ensures var program := Program(ReadProgram(text, literal).value, table);
            (forall runtime: Runtime ::
               RunComposite(steps, args, runtime).calls == RunProgram(program, args, runtime, show).calls) <==>
            StaticallySafe(steps, args, show)
  {
    hide RenderProgram, ReadProgram, StaticallySafe, RunComposite, RunProgram, AllPlain;
    TextReadsBack(steps, repr, literal);
    CallsAlwaysAgreeIff(steps, args, show);
    assert Program(ReadProgram(text, literal).value, table) == Compile(steps);
  }
}

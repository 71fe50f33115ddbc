/**
 The object texts of RFC 8259 (sections 2 to 7), with every choice of whitespace, escape and number
 form the grammar leaves open, and the proof that the scanners recover each of them from prose.
 */
module JsonGrammar {
  import opened Basics
  import opened PythonText
  import opened JsonScanner

  /** One `char` production of a string: unescaped, a two-character escape, or `\uXXXX`. */
  datatype Piece = Raw(c: char) | Escape(c: char) | CodeUnit(hex: string)

  datatype Number = Number(minus: bool, whole: string, fraction: Option<string>, exponent: Option<Exponent>)

  datatype Exponent = Exponent(marker: char, sign: string, digits: string)

  datatype Value =
    | True | False | Null
    | Numeric(number: Number)
    | Text(pieces: seq<Piece>)
    | Array(gap: string, elements: Elements)
    | Object(gap: string, members: Members)

  /** Each element with the whitespace before and after it; commas stand between consecutive elements. */
  datatype Elements = NoElements | Element(before: string, value: Value, after: string, rest: Elements)

  datatype Members =
    | NoMembers
    | Member(before: string, name: seq<Piece>, gap: string, lead: string, value: Value, after: string, rest: Members)

  // ----- rendering -----

  function RenderPiece(p: Piece): string {
    match p
    case Raw(c) => [c]
    case Escape(c) => ['\\', c]
    case CodeUnit(hex) => "\\u" + hex
  }

  function RenderPieces(ps: seq<Piece>): string {
    if ps == [] then "" else RenderPiece(ps[0]) + RenderPieces(ps[1..])
  }

  function Quoted(ps: seq<Piece>): string {
    ['"'] + RenderPieces(ps) + ['"']
  }

  function RenderNumber(n: Number): string {
    (if n.minus then "-" else "") + n.whole
    + (if n.fraction.Some? then "." + n.fraction.value else "")
    + (if n.exponent.Some? then [n.exponent.value.marker] + n.exponent.value.sign + n.exponent.value.digits else "")
  }

  function Render(v: Value): string {
    match v
    case True => "true"
    case False => "false"
    case Null => "null"
    case Numeric(n) => RenderNumber(n)
    case Text(ps) => Quoted(ps)
    case Array(gap, elements) => ['['] + (gap + RenderElements(elements)) + [']']
    case Object(gap, members) => ['{'] + (gap + RenderMembers(members)) + ['}']
  }

  function RenderElements(e: Elements): string {
    match e
    case NoElements => ""
    case Element(before, value, after, rest) =>
      (before + Render(value) + after) + (if rest == NoElements then "" else "," + RenderElements(rest))
  }

  function RenderMembers(m: Members): string {
    match m
    case NoMembers => ""
    case Member(before, name, gap, lead, value, after, rest) =>
      (before + Quoted(name) + (gap + ":" + lead) + Render(value) + after)
      + (if rest == NoMembers then "" else "," + RenderMembers(rest))
  }

  // ----- well-formedness -----

  predicate IsWhitespace(s: string) {
    forall i :: 0 <= i < |s| ==> s[i] == ' ' || s[i] == '\t' || s[i] == '\n' || s[i] == '\r'
  }

  predicate IsDigits(s: string) {
    s != [] && forall i :: 0 <= i < |s| ==> '0' <= s[i] <= '9'
  }

  predicate IsHex(s: string) {
    |s| == 4 && forall i :: 0 <= i < |s| ==> '0' <= s[i] <= '9' || 'a' <= s[i] <= 'f' || 'A' <= s[i] <= 'F'
  }

  predicate ValidPiece(p: Piece) {
    match p
    case Raw(c) => c >= ' ' && c != '"' && c != '\\'
    case Escape(c) => c in "\"\\/bfnrt"
    case CodeUnit(hex) => IsHex(hex)
  }

  predicate ValidPieces(ps: seq<Piece>) {
    forall i :: 0 <= i < |ps| ==> ValidPiece(ps[i])
  }

  predicate ValidNumber(n: Number) {
    && IsDigits(n.whole)
    && (n.whole[0] == '0' ==> |n.whole| == 1)
    && (n.fraction.Some? ==> IsDigits(n.fraction.value))
    && (n.exponent.Some? ==>
          && (n.exponent.value.marker == 'e' || n.exponent.value.marker == 'E')
          && (n.exponent.value.sign == "" || n.exponent.value.sign == "+" || n.exponent.value.sign == "-")
          && IsDigits(n.exponent.value.digits))
  }

  predicate Valid(v: Value) {
    match v
    case Numeric(n) => ValidNumber(n)
    case Text(ps) => ValidPieces(ps)
    case Array(gap, elements) => IsWhitespace(gap) && ValidElements(elements)
    case Object(gap, members) => IsWhitespace(gap) && ValidMembers(members)
    case _ => true
  }

  predicate ValidElements(e: Elements) {
    match e
    case NoElements => true
    case Element(before, value, after, rest) =>
      IsWhitespace(before) && Valid(value) && IsWhitespace(after) && ValidElements(rest)
  }

  predicate ValidMembers(m: Members) {
    match m
    case NoMembers => true
    case Member(before, name, gap, lead, value, after, rest) =>
      && IsWhitespace(before) && ValidPieces(name) && IsWhitespace(gap) && IsWhitespace(lead)
      && Valid(value) && IsWhitespace(after) && ValidMembers(rest)
  }

  // ----- reading a piece of text from an arbitrary lexer state -----

  function Run(st: Lexer, s: string): Lexer {
    if s == [] then st else Step(Run(st, s[..|s| - 1]), s[|s| - 1])
  }

  /** Reading `s` from `st` ends where it began and never drops below the depth it began at. */
  ghost predicate Settles(st: Lexer, s: string) {
    && Run(st, s) == st
    && forall k :: 0 <= k <= |s| ==> Run(st, s[..k]).depth >= st.depth
  }

  lemma {:induction false} RunConcat(st: Lexer, a: string, b: string)
    ensures Run(st, a + b) == Run(Run(st, a), b)
  {
    if b == [] {
      assert a + b == a;
    } else {
      RunConcat(st, a, b[..|b| - 1]);
      assert (a + b)[..|a + b| - 1] == a + b[..|b| - 1];
    }
  }

  lemma SettlesConcat(st: Lexer, a: string, b: string)
    requires Settles(st, a) && Settles(st, b)
    ensures Settles(st, a + b)
  {
    RunConcat(st, a, b);
    forall k | 0 <= k <= |a + b|
      ensures Run(st, (a + b)[..k]).depth >= st.depth
    {
      if k <= |a| {
        assert (a + b)[..k] == a[..k];
      } else {
        assert (a + b)[..k] == a + b[..k - |a|];
        RunConcat(st, a, b[..k - |a|]);
      }
    }
  }

  /** A bracketing pair of characters around text that settles one state further in. */
  lemma SettlesWrapped(st: Lexer, mid: Lexer, open: char, s: string, close: char)
    requires Step(st, open) == mid && Step(mid, close) == st && mid.depth >= st.depth
    requires Settles(mid, s)
    ensures Settles(st, [open] + s + [close])
  {
    var t := [open] + s + [close];
    assert Run(st, [open]) == Step(Run(st, []), open) by {
      assert [open][..0] == [];
    }
    forall k | 0 <= k <= |s|
      ensures Run(st, t[..k + 1]) == Run(mid, s[..k])
    {
      assert t[..k + 1] == [open] + s[..k];
      RunConcat(st, [open], s[..k]);
    }
    assert s[..|s|] == s;
    assert t[..|t| - 1] == t[..|s| + 1];
    forall k | 0 <= k <= |t|
      ensures Run(st, t[..k]).depth >= st.depth
    {
      if 1 <= k <= |s| + 1 {
        assert Run(st, t[..(k - 1) + 1]) == Run(mid, s[..k - 1]);
      } else if k == |t| {
        assert t[..k] == t;
      }
    }
  }

  predicate Inert(s: string) {
    forall i :: 0 <= i < |s| ==> s[i] != '"' && s[i] != '{' && s[i] != '}'
  }

  lemma {:induction false} InertSettles(st: Lexer, s: string)
    requires !st.inString && Inert(s)
    ensures Settles(st, s)
  {
    if s == [] {
    } else {
      var init := s[..|s| - 1];
      InertSettles(st, init);
      assert forall k :: 0 <= k < |s| ==> s[..k] == init[..k];
      assert s[..|s|] == s;
    }
  }

  // ----- the grammar settles -----

  lemma PieceSettles(st: Lexer, p: Piece)
    requires st.inString && !st.escaped && ValidPiece(p)
    ensures Settles(st, RenderPiece(p))
  {
    match p
    case Raw(c) => PlainSettles(st, [c]);
    case Escape(c) =>
      EscapeSettles(st, c);
    case CodeUnit(hex) =>
      EscapeSettles(st, 'u');
      PlainSettles(st, hex);
      SettlesConcat(st, ['\\', 'u'], hex);
      assert "\\u" == ['\\', 'u'];
  }

  lemma EscapeSettles(st: Lexer, c: char)
    requires st.inString && !st.escaped
    ensures Settles(st, ['\\', c])
  {
    var s := ['\\', c];
    assert s[..0] == [] && s[..1] == ['\\'] && s[..2] == s && s[..1][..0] == [];
    assert Run(st, s[..1]) == Step(Run(st, []), '\\');
    assert Run(st, s) == Step(Run(st, s[..1]), c);
  }

  lemma {:induction false} PlainSettles(st: Lexer, s: string)
    requires st.inString && !st.escaped
    requires forall i :: 0 <= i < |s| ==> s[i] != '"' && s[i] != '\\'
    ensures Settles(st, s)
  {
    if s == [] {
    } else {
      var init := s[..|s| - 1];
      PlainSettles(st, init);
      assert forall k :: 0 <= k < |s| ==> s[..k] == init[..k];
      assert s[..|s|] == s;
    }
  }

  lemma {:induction false} PiecesSettle(st: Lexer, ps: seq<Piece>)
    requires st.inString && !st.escaped && ValidPieces(ps)
    ensures Settles(st, RenderPieces(ps))
  {
    if ps == [] {
    } else {
      PieceSettles(st, ps[0]);
      PiecesSettle(st, ps[1..]);
      SettlesConcat(st, RenderPiece(ps[0]), RenderPieces(ps[1..]));
    }
  }

  /** Braces, quotes and backslashes inside a string literal do not disturb the scanner. */
  lemma QuotedSettles(d: nat, ps: seq<Piece>)
    requires ValidPieces(ps)
    ensures Settles(Lexer(d, false, false), Quoted(ps))
  {
    PiecesSettle(Lexer(d, true, false), ps);
    SettlesWrapped(Lexer(d, false, false), Lexer(d, true, false), '"', RenderPieces(ps), '"');
  }

  lemma NumberInert(n: Number)
    requires ValidNumber(n)
    ensures Inert(RenderNumber(n))
  {
    var sign := if n.minus then "-" else "";
    var frac := if n.fraction.Some? then "." + n.fraction.value else "";
    var exp := if n.exponent.Some? then [n.exponent.value.marker] + n.exponent.value.sign + n.exponent.value.digits
               else "";
    assert Inert(sign) && Inert(n.whole) && Inert(frac) && Inert(exp);
  }

  lemma {:induction false} ValueSettles(d: nat, v: Value)
    requires d >= 1 && Valid(v)
    ensures Settles(Lexer(d, false, false), Render(v))
    decreases v
  {
    var st := Lexer(d, false, false);
    match v
    case True => InertSettles(st, "true");
    case False => InertSettles(st, "false");
    case Null => InertSettles(st, "null");
    case Numeric(n) =>
      NumberInert(n);
      InertSettles(st, RenderNumber(n));
    case Text(ps) => QuotedSettles(d, ps);
    case Array(gap, elements) =>
      InertSettles(st, gap);
      ElementsSettle(d, elements);
      SettlesConcat(st, gap, RenderElements(elements));
      SettlesWrapped(st, st, '[', gap + RenderElements(elements), ']');
    case Object(gap, members) =>
      ObjectInnerSettles(d + 1, gap, members);
      SettlesWrapped(st, Lexer(d + 1, false, false), '{', gap + RenderMembers(members), '}');
  }

  lemma {:induction false} ObjectInnerSettles(d: nat, gap: string, members: Members)
    requires d >= 1 && IsWhitespace(gap) && ValidMembers(members)
    ensures Settles(Lexer(d, false, false), gap + RenderMembers(members))
    decreases members, 1
  {
    InertSettles(Lexer(d, false, false), gap);
    MembersSettle(d, members);
    SettlesConcat(Lexer(d, false, false), gap, RenderMembers(members));
  }

  lemma {:induction false} ElementsSettle(d: nat, e: Elements)
    requires d >= 1 && ValidElements(e)
    ensures Settles(Lexer(d, false, false), RenderElements(e))
    decreases e
  {
    var st := Lexer(d, false, false);
    match e
    case NoElements =>
    case Element(before, value, after, rest) =>
      InertSettles(st, before);
      ValueSettles(d, value);
      InertSettles(st, after);
      SettlesConcat(st, before, Render(value));
      SettlesConcat(st, before + Render(value), after);
      ElementsSettle(d, rest);
      InertSettles(st, ",");
      SettlesConcat(st, ",", RenderElements(rest));
      SettlesConcat(st, before + Render(value) + after, if rest == NoElements then "" else "," + RenderElements(rest));
  }

  lemma {:induction false} MembersSettle(d: nat, m: Members)
    requires d >= 1 && ValidMembers(m)
    ensures Settles(Lexer(d, false, false), RenderMembers(m))
    decreases m, 0
  {
    var st := Lexer(d, false, false);
    match m
    case NoMembers =>
    case Member(before, name, gap, lead, value, after, rest) =>
      InertSettles(st, before);
      QuotedSettles(d, name);
      InertSettles(st, gap + ":" + lead);
      ValueSettles(d, value);
      InertSettles(st, after);
      SettlesConcat(st, before, Quoted(name));
      SettlesConcat(st, before + Quoted(name), gap + ":" + lead);
      SettlesConcat(st, before + Quoted(name) + (gap + ":" + lead), Render(value));
      SettlesConcat(st, before + Quoted(name) + (gap + ":" + lead) + Render(value), after);
      MembersSettle(d, rest);
      InertSettles(st, ",");
      SettlesConcat(st, ",", RenderMembers(rest));
      SettlesConcat(st, before + Quoted(name) + (gap + ":" + lead) + Render(value) + after,
                    if rest == NoMembers then "" else "," + RenderMembers(rest));
  }

  // ----- recovery -----

  lemma {:induction false} ScanIsRun(text: string, hi: nat)
    requires 1 <= hi <= |text|
    ensures Scan(text, 1, hi) == Run(OPENED, text[1..hi])
  {
    if 1 < hi {
      ScanIsRun(text, hi - 1);
      SliceSnoc(text, 1, hi - 1);
    }
  }

  lemma SettledIsBalanced(s: string)
    requires Settles(OPENED, s)
    ensures Balanced(['{'] + s + ['}'])
  {
    var b := ['{'] + s + ['}'];
    assert forall k :: 1 <= k <= |b| - 1 ==> b[1..k] == s[..k - 1];
    assert s[..|s|] == s;
    ScanIsRun(b, |b| - 1);
    forall k | 1 <= k <= |b| - 1
      ensures Scan(b, 1, k).depth > 0
    {
      ScanIsRun(b, k);
      assert b[1..k] == s[..k - 1];
    }
  }

  /** Every object text of the grammar is balanced in the scanners' sense. */
  lemma ObjectBalanced(v: Value)
    requires v.Object? && Valid(v)
    ensures Balanced(Render(v))
  {
    ObjectInnerSettles(1, v.gap, v.members);
    SettledIsBalanced(v.gap + RenderMembers(v.members));
  }

  /** The docs scanner finds an object in any prose that holds no earlier brace, whatever follows it. */
  lemma ObjectRecovered(prefix: string, v: Value, suffix: string)
    requires v.Object? && Valid(v)
    requires '{' !in prefix
    ensures FirstObject(prefix + Render(v) + suffix) == Some(Render(v))
  {
    var text := prefix + Render(v) + suffix;
    ObjectBalanced(v);
    FirstBraceUnique(text, |prefix|);
    assert text[|prefix|..|prefix| + |Render(v)|] == Render(v);
    FirstObjectIs(text, Render(v));
  }

  /** So does the generator's scanner, unless it trusts a fence whose content is not that object. */
  lemma ObjectRecoveredByGenerator(prefix: string, v: Value, suffix: string)
    requires v.Object? && Valid(v)
    requires '{' !in prefix
    ensures var text := prefix + Render(v) + suffix;
            GeneratorObject(text) == Some(Render(v)) <==>
            (TrustedFence(Strip(text)).Some? ==> TrustedFence(Strip(text)).value == Render(v))
  {
    var text := prefix + Render(v) + suffix;
    ObjectRecovered(prefix, v, suffix);
    ScannersAgree(text);
  }

  /** An object inside a code fence is recovered by both scanners. */
  lemma FencedObjectRecoveredByBoth(outer: string, tag: string, gap: string, v: Value, tail: string, end: string)
    requires v.Object? && Valid(v)
    requires tag == "" || IsJsonTag(tag)
    requires AllSpace(outer) && AllSpace(gap) && AllSpace(tail) && AllSpace(end)
    ensures var text := outer + (TICKS + tag + (gap + Render(v) + tail) + TICKS) + end;
            GeneratorObject(text) == Some(Render(v)) == FirstObject(text)
  {
    ObjectBalanced(v);
    FencedObjectRecovered(outer, tag, gap, Render(v), tail, end);
    Regroup(outer, tag, gap, Render(v), tail, end);
    NoBraceInOpening(outer, tag, gap);
    ObjectRecovered(outer + TICKS + tag + gap, v, tail + TICKS + end);
  }

  lemma Regroup(a: string, b: string, c: string, d: string, e: string, f: string)
    ensures a + (TICKS + b + (c + d + e) + TICKS) + f == (a + TICKS + b + c) + d + (e + TICKS + f)
  {
    assert a + (TICKS + b + (c + d + e) + TICKS) == (a + TICKS + b + c) + d + (e + TICKS);
  }

  lemma NoBraceInOpening(outer: string, tag: string, gap: string)
    requires tag == "" || IsJsonTag(tag)
    requires AllSpace(outer) && AllSpace(gap)
    ensures '{' !in outer + TICKS + tag + gap
  {
    assert '{' !in outer && '{' !in tag && '{' !in gap;
  }
}

/**
 What the scanners mean by a balanced object, said without a state machine: between its outer braces the text
 divides into string literals and single other characters, and the braces among the latter nest.
 */
module JsonBalance {
  import opened JsonScanner
  import JsonGrammar

  datatype Token = Mark(c: char) | Literal(body: string)

  /** Between the quotes of a string literal: a backslash takes the next character along, and no quote stands alone. */
  predicate StringBody(s: string) {
    s == "" || (if s[0] == '\\' then |s| >= 2 && StringBody(s[2..]) else s[0] != '"' && StringBody(s[1..]))
  }

  predicate IsToken(t: Token) {
    match t
    case Mark(c) => c != '"'
    case Literal(body) => StringBody(body)
  }

  predicate AllTokens(tokens: seq<Token>) {
    forall i :: 0 <= i < |tokens| ==> IsToken(tokens[i])
  }

  function TextOf(t: Token): string {
    match t
    case Mark(c) => [c]
    case Literal(body) => ['"'] + body + ['"']
  }

  function Flat(tokens: seq<Token>): string {
    if tokens == [] then "" else Flat(tokens[..|tokens| - 1]) + TextOf(tokens[|tokens| - 1])
  }

  /** A brace outside the string literals opens or closes an object. */
  function Weight(t: Token): int {
    if t == Mark('{') then 1 else if t == Mark('}') then -1 else 0
  }

  /** Opening braces less closing ones, those inside string literals not counted. */
  function Net(tokens: seq<Token>): int {
    if tokens == [] then 0
    else Net(tokens[..|tokens| - 1]) + Weight(tokens[|tokens| - 1])
  }

  ghost predicate NeverBelow(tokens: seq<Token>) {
    forall n :: 0 <= n <= |tokens| ==> Net(tokens[..n]) >= 0
  }

  ghost predicate Nests(b: string, tokens: seq<Token>) {
    AllTokens(tokens) && b == ['{'] + Flat(tokens) + ['}'] && NeverBelow(tokens) && Net(tokens) == 0
  }

  ghost predicate Positive(s: string) {
    forall k :: 0 <= k <= |s| ==> JsonGrammar.Run(OPENED, s[..k]).depth > 0
  }

  // ----- from tokens to the scanner -----

  lemma {:induction false} BodySettles(st: Lexer, s: string)
    requires st.inString && !st.escaped && StringBody(s)
    ensures JsonGrammar.Settles(st, s)
    decreases |s|
  {
    if s == "" {
      JsonGrammar.PlainSettles(st, s);
    } else if s[0] == '\\' {
      JsonGrammar.EscapeSettles(st, s[1]);
      BodySettles(st, s[2..]);
      assert s == ['\\', s[1]] + s[2..];
      JsonGrammar.SettlesConcat(st, ['\\', s[1]], s[2..]);
    } else {
      JsonGrammar.PlainSettles(st, [s[0]]);
      BodySettles(st, s[1..]);
      assert s == [s[0]] + s[1..];
      JsonGrammar.SettlesConcat(st, [s[0]], s[1..]);
    }
  }

  lemma LiteralSettles(st: Lexer, body: string)
    requires !st.inString && !st.escaped && StringBody(body)
    ensures JsonGrammar.Settles(st, ['"'] + body + ['"'])
  {
    var mid := st.(inString := true);
    BodySettles(mid, body);
    JsonGrammar.SettlesWrapped(st, mid, '"', body, '"');
  }

  lemma PositiveConcat(a: string, x: string)
    requires Positive(a)
    requires forall j :: 0 <= j <= |x| ==> JsonGrammar.Run(JsonGrammar.Run(OPENED, a), x[..j]).depth > 0
    ensures Positive(a + x)
  {
    hide JsonGrammar.Run;
    forall k | 0 <= k <= |a + x|
      ensures JsonGrammar.Run(OPENED, (a + x)[..k]).depth > 0
    {
      if k <= |a| {
        assert (a + x)[..k] == a[..k];
      } else {
        assert (a + x)[..k] == a + x[..k - |a|];
        JsonGrammar.RunConcat(OPENED, a, x[..k - |a|]);
      }
    }
  }

  lemma RunOne(st: Lexer, c: char)
    ensures JsonGrammar.Run(st, [c]) == Step(st, c)
    ensures [c][..0] == [] && [c][..1] == [c] && JsonGrammar.Run(st, []) == st
  {
    assert [c][..0] == [];
  }

  /** Reading one token moves the depth by its weight and keeps it above zero. */
  lemma TokenRun(st: Lexer, t: Token)
    requires IsToken(t) && !st.inString && !st.escaped && st.depth > 0 && st.depth + Weight(t) > 0
    ensures JsonGrammar.Run(st, TextOf(t)) == Lexer(st.depth + Weight(t), false, false)
    ensures forall j :: 0 <= j <= |TextOf(t)| ==> JsonGrammar.Run(st, TextOf(t)[..j]).depth > 0
  {
    hide JsonGrammar.Run;
    match t {
      case Mark(c) =>
        RunOne(st, c);
        assert forall j :: 0 <= j <= 1 ==> [c][..j] == (if j == 0 then [] else [c]);
      case Literal(body) =>
        LiteralSettles(st, body);
    }
  }

  lemma {:induction false} TokensRun(tokens: seq<Token>)
    requires AllTokens(tokens) && NeverBelow(tokens)
    ensures JsonGrammar.Run(OPENED, Flat(tokens)) == Lexer(1 + Net(tokens), false, false)
    ensures Positive(Flat(tokens))
  {
    if tokens == [] {
      assert Flat(tokens) == "";
    } else {
      var init, last := tokens[..|tokens| - 1], tokens[|tokens| - 1];
      NeverBelowInit(tokens);
      NeverBelowNow(init);
      TokensRun(init);
      hide JsonGrammar.Run, Positive, NeverBelow, IsToken;
      var st := JsonGrammar.Run(OPENED, Flat(init));
      TokenRun(st, last);
      JsonGrammar.RunConcat(OPENED, Flat(init), TextOf(last));
      PositiveConcat(Flat(init), TextOf(last));
    }
  }

  lemma NeverBelowInit(tokens: seq<Token>)
    requires NeverBelow(tokens) && tokens != []
    ensures NeverBelow(tokens[..|tokens| - 1]) && Net(tokens) >= 0
  {
    hide Net;
    var init := tokens[..|tokens| - 1];
    assert tokens[..|tokens|] == tokens;
    forall n | 0 <= n <= |init|
      ensures Net(init[..n]) >= 0
    {
      assert init[..n] == tokens[..n];
    }
  }

  // ----- from the scanner to tokens -----

  lemma {:induction false} BodySnoc(body: string, c: char)
    requires StringBody(body) && c != '"' && c != '\\'
    ensures StringBody(body + [c])
    decreases |body|
  {
    if body == "" {
      assert body + [c] == [c] && [c][1..] == "";
    } else if body[0] == '\\' {
      assert (body + [c])[2..] == body[2..] + [c];
      BodySnoc(body[2..], c);
    } else {
      assert (body + [c])[1..] == body[1..] + [c];
      BodySnoc(body[1..], c);
    }
  }

  lemma {:induction false} BodyEscape(body: string, c: char)
    requires StringBody(body)
    ensures StringBody(body + ['\\', c])
    decreases |body|
  {
    var pair := ['\\', c];
    if body == "" {
      assert body + pair == pair && pair[2..] == "";
    } else if body[0] == '\\' {
      assert (body + pair)[2..] == body[2..] + pair;
      BodyEscape(body[2..], c);
    } else {
      assert (body + pair)[1..] == body[1..] + pair;
      BodyEscape(body[1..], c);
    }
  }

  /** What has been read so far: whole tokens, and perhaps a string literal that is not closed yet. */
  ghost predicate Reading(s: string, st: Lexer, tokens: seq<Token>, body: string) {
    && AllTokens(tokens) && NeverBelow(tokens) && st.depth == 1 + Net(tokens) && StringBody(body)
    && s == Flat(tokens) + (if !st.inString then "" else ['"'] + body + (if st.escaped then ['\\'] else ""))
    && (st.escaped ==> st.inString)
  }

  lemma NeverBelowSnoc(tokens: seq<Token>, t: Token)
    requires NeverBelow(tokens) && AllTokens(tokens) && IsToken(t) && Net(tokens + [t]) >= 0
    ensures NeverBelow(tokens + [t]) && AllTokens(tokens + [t]) && Flat(tokens + [t]) == Flat(tokens) + TextOf(t)
    ensures Net(tokens + [t]) == Net(tokens) + Weight(t)
  {
    var more := tokens + [t];
    assert more[..|tokens|] == tokens;
    hide IsToken;
    forall n | 0 <= n <= |more|
      ensures Net(more[..n]) >= 0
    {
      if n <= |tokens| {
        assert more[..n] == tokens[..n];
      } else {
        assert more[..n] == more;
      }
    }
  }

  lemma NetSnoc(tokens: seq<Token>, t: Token)
    ensures Net(tokens + [t]) == Net(tokens) + Weight(t)
  {
    assert (tokens + [t])[..|tokens|] == tokens;
  }

  lemma ReadInString(s: string, st: Lexer, tokens: seq<Token>, body: string, c: char)
    returns (tokens': seq<Token>, body': string)
    requires Reading(s, st, tokens, body) && st.inString
    ensures Reading(s + [c], Step(st, c), tokens', body')
  {
    hide StringBody, NeverBelow, Net, Flat;
    tokens', body' := tokens, body;
    if st.escaped {
      body' := body + ['\\', c];
      BodyEscape(body, c);
      assert s + [c] == Flat(tokens) + (['"'] + body');
    } else if c == '\\' {
      assert s + [c] == Flat(tokens) + (['"'] + body + ['\\']);
    } else if c == '"' {
      var t := Literal(body);
      NetSnoc(tokens, t);
      NeverBelowNow(tokens);
      assert IsToken(t);
      NeverBelowSnoc(tokens, t);
      tokens' := tokens + [t];
      assert s + [c] == Flat(tokens) + (['"'] + body + ['"']);
    } else {
      body' := body + [c];
      BodySnoc(body, c);
      assert s + [c] == Flat(tokens) + (['"'] + body');
    }
  }

  lemma NeverBelowNow(tokens: seq<Token>)
    requires NeverBelow(tokens)
    ensures Net(tokens) >= 0
  {
    assert tokens[..|tokens|] == tokens;
  }

  lemma ReadOutside(s: string, st: Lexer, tokens: seq<Token>, body: string, c: char)
    returns (tokens': seq<Token>, body': string)
    requires Reading(s, st, tokens, body) && !st.inString && Step(st, c).depth > 0 && st.depth > 0
    ensures Reading(s + [c], Step(st, c), tokens', body')
  {
    hide NeverBelow, Net, Flat;
    NeverBelowNow(tokens);
    if c == '"' {
      tokens', body' := tokens, "";
      assert s + [c] == Flat(tokens) + (['"'] + "" + "");
    } else {
      var t := Mark(c);
      NetSnoc(tokens, t);
      NeverBelowSnoc(tokens, t);
      tokens', body' := tokens + [t], body;
    }
  }

  lemma {:induction false} Tokenize(s: string) returns (tokens: seq<Token>, body: string)
    requires Positive(s)
    ensures Reading(s, JsonGrammar.Run(OPENED, s), tokens, body)
  {
    if s == "" {
      tokens, body := [], "";
    } else {
      var init, c := s[..|s| - 1], s[|s| - 1];
      PositiveInit(s);
      tokens, body := Tokenize(init);
      hide Positive, Reading;
      var st := JsonGrammar.Run(OPENED, init);
      assert s == init + [c];
      if st.inString {
        tokens, body := ReadInString(init, st, tokens, body, c);
      } else {
        tokens, body := ReadOutside(init, st, tokens, body, c);
      }
    }
  }

  lemma PositiveInit(s: string)
    requires Positive(s) && s != ""
    ensures Positive(s[..|s| - 1]) && JsonGrammar.Run(OPENED, s).depth > 0
    ensures JsonGrammar.Run(OPENED, s[..|s| - 1]).depth > 0
  {
    hide JsonGrammar.Run;
    var init := s[..|s| - 1];
    assert s[..|s|] == s;
    forall k | 0 <= k <= |init|
      ensures JsonGrammar.Run(OPENED, init[..k]).depth > 0
    {
      assert init[..k] == s[..k];
    }
  }

  /**
   A text is balanced in the scanners' sense exactly when it opens and closes with a brace and what lies between
   divides into string literals and other characters whose braces nest.
   */
  lemma BalancedIff(b: string)
    ensures Balanced(b) <==> exists tokens :: Nests(b, tokens)
  {
    hide Scan, StringBody, Net, Flat, NeverBelow;
    if Balanced(b) {
      var s := b[1..|b| - 1];
      InnerPositive(b);
      var tokens, body := Tokenize(s);
      hide Balanced;
      assert b == ['{'] + s + ['}'];
      assert Nests(b, tokens);
    }
    if tokens :| Nests(b, tokens) {
      TokensRun(tokens);
      assert JsonGrammar.Settles(OPENED, Flat(tokens));
      JsonGrammar.SettledIsBalanced(Flat(tokens));
    }
  }

  lemma InnerPositive(b: string)
    requires Balanced(b)
    ensures b == ['{'] + b[1..|b| - 1] + ['}']
    ensures Positive(b[1..|b| - 1]) && JsonGrammar.Run(OPENED, b[1..|b| - 1]) == OPENED
  {
    hide Scan, JsonGrammar.Run;
    var s := b[1..|b| - 1];
    JsonGrammar.ScanIsRun(b, |b| - 1);
    forall k | 0 <= k <= |s|
      ensures JsonGrammar.Run(OPENED, s[..k]).depth > 0
    {
      JsonGrammar.ScanIsRun(b, k + 1);
      assert s[..k] == b[1..k + 1];
      assert Scan(b, 1, k + 1).depth > 0;
    }
  }
}

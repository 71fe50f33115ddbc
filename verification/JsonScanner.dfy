/**
 The two brace scanners that pull the first JSON object out of a model's reply:
 `_extract_json_object` of the docs parser and of the proposal generator.
 Both are proved against one declarative notion, `FirstObject`.
 */
module JsonScanner {
  import opened Basics
  import opened PythonText

  /** What a scanner remembers between characters once an object is open. */
  datatype Lexer = Lexer(depth: nat, inString: bool, escaped: bool)

  /** Just after the opening brace of the outermost object. */
  const OPENED := Lexer(1, false, false)

  function Step(st: Lexer, c: char): Lexer {
    if st.inString then
      if st.escaped then st.(escaped := false)
      else if c == '\\' then st.(escaped := true)
      else if c == '"' then st.(inString := false)
      else st
    else if c == '"' then st.(inString := true)
    else if c == '{' then st.(depth := st.depth + 1)
    else if c == '}' && st.depth > 0 then st.(depth := st.depth - 1)
    else st
  }

  /** The lexer after the characters `text[lo..hi]`, started just after an opening brace. */
  function Scan(text: string, lo: nat, hi: nat): Lexer
    requires hi <= |text|
  {
    if hi <= lo then OPENED else Step(Scan(text, lo, hi - 1), text[hi - 1])
  }

  /** No part of `text[lo..hi]` closes the object opened just before `lo`. */
  ghost predicate StaysOpen(text: string, lo: nat, hi: nat)
    requires hi <= |text|
  {
    forall k :: lo <= k <= hi ==> Scan(text, lo, k).depth > 0
  }

  /** `b` opens with a brace, and its last character is the first that closes that brace. */
  ghost predicate Balanced(b: string) {
    && |b| >= 2
    && b[0] == '{'
    && b[|b| - 1] == '}'
    && StaysOpen(b, 1, |b| - 1)
    && Scan(b, 1, |b| - 1) == OPENED
  }

  /** The index of the first `{`, or the length of the text if there is none. */
  function FirstBrace(text: string): (i: nat)
    ensures i <= |text|
    ensures forall k :: 0 <= k < i ==> text[k] != '{'
    ensures i < |text| ==> text[i] == '{'
  {
    if text == [] || text[0] == '{' then 0
    else
      1 + FirstBrace(text[1..])
  }

  lemma FirstBraceUnique(text: string, i: nat)
    requires i <= |text| && forall k :: 0 <= k < i ==> text[k] != '{'
    requires i < |text| ==> text[i] == '{'
    ensures FirstBrace(text) == i
  {
  }

  predicate OccursAt(text: string, at: nat, b: string) {
    at + |b| <= |text| && text[at..at + |b|] == b
  }

  ghost predicate IsFirstObject(text: string, b: string) {
    Balanced(b) && OccursAt(text, FirstBrace(text), b)
  }

  /** The balanced object that starts at the first opening brace, if that brace is ever closed. */
  ghost function FirstObject(text: string): Option<string> {
    if b :| IsFirstObject(text, b) then Some(b) else None
  }

  // ----- facts about balanced objects -----

  /** Scanning depends only on the characters scanned, not on where they stand. */
  lemma {:induction false} ScanMoves(text: string, at: nat, b: string, hi: nat)
    requires OccursAt(text, at, b) && 1 <= hi <= |b|
    ensures Scan(text, at + 1, at + hi) == Scan(b, 1, hi)
  {
    if 1 < hi {
      ScanMoves(text, at, b, hi - 1);
      assert text[at..at + |b|][hi - 1] == text[at + hi - 1];
    }
  }

  /** Read after its opening brace, a balanced object is closed by its last character and by none before. */
  lemma BalancedCloses(text: string, at: nat, b: string)
    requires Balanced(b) && OccursAt(text, at, b)
    ensures Scan(text, at + 1, at + |b|).depth == 0
    ensures StaysOpen(text, at + 1, at + |b| - 1)
  {
    ScanMoves(text, at, b, |b|);
    var lo := at + 1;
    forall k | lo <= k <= at + |b| - 1
      ensures Scan(text, lo, k).depth > 0
    {
      ScanMoves(text, at, b, k - at);
    }
  }

  /** The converse: a stretch of text that opens with a brace and closes it with its last character. */
  lemma ClosesBalanced(text: string, at: nat, b: string)
    requires OccursAt(text, at, b) && |b| >= 2
    requires text[at] == '{' && text[at + |b| - 1] == '}'
    requires StaysOpen(text, at + 1, at + |b| - 1)
    requires Scan(text, at + 1, at + |b| - 1) == OPENED
    ensures Balanced(b)
  {
    ScanMoves(text, at, b, |b| - 1);
    forall k | 1 <= k <= |b| - 1
      ensures Scan(b, 1, k).depth > 0
    {
      ScanMoves(text, at, b, k);
    }
  }

  /** A text has at most one first object: no balanced object is a proper prefix of another. */
  lemma FirstObjectUnique(text: string, at: nat, a: string, b: string)
    requires Balanced(a) && Balanced(b) && OccursAt(text, at, a) && OccursAt(text, at, b)
    ensures a == b
  {
    BalancedCloses(text, at, a);
    BalancedCloses(text, at, b);
  }

  lemma FirstObjectIs(text: string, b: string)
    requires IsFirstObject(text, b)
    ensures FirstObject(text) == Some(b)
  {
    FirstObjectUnique(text, FirstBrace(text), FirstObject(text).value, b);
  }

  /** The first brace of the text is closed at `last` and not before. */
  lemma FoundFirstObject(text: string, last: nat)
    requires FirstBrace(text) < last < |text|
    requires text[last] == '}'
    requires StaysOpen(text, FirstBrace(text) + 1, last)
    requires Scan(text, FirstBrace(text) + 1, last) == OPENED
    ensures FirstObject(text) == Some(text[FirstBrace(text)..last + 1])
  {
    hide Balanced, StaysOpen, Scan, FirstObject;
    var at := FirstBrace(text);
    var b := text[at..last + 1];
    assert at + |b| == last + 1;
    ClosesBalanced(text, at, b);
    FirstObjectIs(text, b);
  }

  /** The first brace of the text, if there is one, is never closed. */
  lemma NoFirstObject(text: string)
    requires FirstBrace(text) < |text| ==> StaysOpen(text, FirstBrace(text) + 1, |text|)
    ensures FirstObject(text) == None
  {
    forall b | Balanced(b)
      ensures !OccursAt(text, FirstBrace(text), b)
    {
      if OccursAt(text, FirstBrace(text), b) {
        BalancedCloses(text, FirstBrace(text), b);
      }
    }
  }

  // ----- the docs parser's scanner -----

  method ExtractForDocs(text: string) returns (r: Option<string>)
    ensures r == FirstObject(text)
  {
    var depth: nat := 0;
    var start := -1;
    var inString := false;
    var escaped := false;
    for index := 0 to |text|
      invariant start == -1 ==>
                  && depth == 0
                  && !inString
                  && !escaped
                  && forall k :: 0 <= k < index ==> text[k] != '{'
      invariant start != -1 ==>
                  && 0 <= start == FirstBrace(text) < index
                  && (escaped ==> inString)
                  && StaysOpen(text, start + 1, index)
                  && Scan(text, start + 1, index) == Lexer(depth, inString, escaped)
    {
      var c := text[index];
      if inString {
        if escaped {
          escaped := false;
        } else if c == '\\' {
          escaped := true;
        } else if c == '"' {
          inString := false;
        }
        continue;
      }
      if c == '"' {
        if depth > 0 {
          inString := true;
        }
      } else if c == '{' {
        if depth == 0 {
          start := index;
          FirstBraceUnique(text, index);
        }
        depth := depth + 1;
      } else if c == '}' && depth > 0 {
        depth := depth - 1;
        if depth == 0 && start >= 0 {
          FoundFirstObject(text, index);
          return Some(text[start..index + 1]);
        }
      }
    }
    if start == -1 {
      FirstBraceUnique(text, |text|);
    }
    NoFirstObject(text);
    return None;
  }

  // ----- the proposal generator's scanner -----

  /** `json` as `re.IGNORECASE` reads it; the long s folds to `s`. */
  predicate IsJsonTag(s: string) {
    && |s| == 4
    && (s[0] == 'j' || s[0] == 'J')
    && (s[1] == 's' || s[1] == 'S' || s[1] == '\U{17F}')
    && (s[2] == 'o' || s[2] == 'O')
    && (s[3] == 'n' || s[3] == 'N')
  }

  /** Letter by letter: each of the four in either case, and the long s. */
  lemma JsonTagIs(s: string)
    ensures IsJsonTag(s) <==>
            |s| == 4 && s[0] in "jJ" && s[1] in "sS\U{17F}" && s[2] in "oO" && s[3] in "nN"
  {
  }

  const TICKS := "```"

  /** The ways the fence pattern of the generator can divide a text. */
  predicate FenceMatch(s: string, tag: string, gap: string, body: string, tail: string, after: string) {
    && s == (TICKS + tag) + (gap + body + tail) + (TICKS + after)
    && (tag == "" || IsJsonTag(tag))
    && AllSpace(gap)
    && (tail == "" || tail == "\n")
    && AllSpace(after)
  }

  function TagLength(s: string): nat {
    if |s| >= 10 && IsJsonTag(s[3..7]) then 4 else 0
  }

  predicate IsFenced(s: string) {
    |s| >= 6 && s[..3] == TICKS && s[|s| - 3..] == TICKS
  }

  /** What stands between the opening fence, with its tag if it has one, and the closing fence. */
  function Fenced(s: string): string
    requires IsFenced(s)
  {
    s[3 + TagLength(s)..|s| - 3]
  }

  /** `fence_match.group(1).strip()` for a text that is already stripped. */
  function FenceBody(s: string): Option<string> {
    if IsFenced(s) then Some(Strip(Fenced(s))) else None
  }

  /**
   Whichever match of the pattern the engine settles on, the stripped group is the same, provided it
   takes the `json` tag when it can, as a greedy optional group does.
   */
  lemma FenceBodyIsGroup(s: string, tag: string, gap: string, body: string, tail: string, after: string)
    requires Trimmed(s) && FenceMatch(s, tag, gap, body, tail, after)
    requires tag == "" ==> !HasTaggedMatch(s)
    ensures FenceBody(s) == Some(Strip(body))
  {
    var inner := gap + body + tail;
    FenceEnds(tag, inner, after);
    FenceIs(tag, inner);
    TagIsTaken(s);
    FenceRecovered(tag, inner);
    StripOfPadded(gap, body, tail);
  }

  ghost predicate HasTaggedMatch(s: string) {
    exists tag, gap, body, tail, after :: tag != "" && FenceMatch(s, tag, gap, body, tail, after)
  }

  lemma TagIsTaken(s: string)
    requires IsFenced(s)
    ensures TagLength(s) == 4 ==> HasTaggedMatch(s)
  {
    UntaggedMatch(s);
  }

  lemma FenceEnds(tag: string, inner: string, after: string)
    requires AllSpace(after) && Trimmed((TICKS + tag) + inner + (TICKS + after))
    ensures (TICKS + tag) + inner + (TICKS + after) == TICKS + tag + inner + TICKS
  {
    assert (TICKS + tag) + inner + (TICKS + after) == (TICKS + tag + inner + TICKS) + after;
    NothingAfterFence(TICKS + tag + inner + TICKS, after);
  }

  lemma NothingAfterFence(fence: string, after: string)
    requires AllSpace(after) && Trimmed(fence + after)
    ensures after == ""
  {
  }

  lemma FenceIs(tag: string, inner: string)
    requires tag == "" || IsJsonTag(tag)
    ensures var s := TICKS + tag + inner + TICKS;
            && IsFenced(s)
            && (tag != "" ==> TagLength(s) == 4)
            && (TagLength(s) == |tag| ==> Fenced(s) == inner)
  {
    var s := TICKS + tag + inner + TICKS;
    assert tag != "" ==> s[3..7] == tag;
    assert s[3 + |tag|..|s| - 3] == inner;
  }

  lemma UntaggedMatch(s: string)
    requires IsFenced(s)
    ensures FenceMatch(s, s[3..3 + TagLength(s)], "", Fenced(s), "", "")
  {
    var n := 3 + TagLength(s);
    assert s == s[..3] + s[3..n] + s[n..|s| - 3] + s[|s| - 3..];
    assert s == (TICKS + s[3..n]) + ("" + Fenced(s) + "") + (TICKS + "");
  }

  lemma StripOfPadded(gap: string, body: string, tail: string)
    requires AllSpace(gap) && AllSpace(tail)
    ensures Strip(gap + body + tail) == Strip(body)
  {
    var before, behind := StripSplits(body);
    RegroupPadding(gap, before, Strip(body), behind, tail);
    StripIs(gap + before, Strip(body), behind + tail);
  }

  lemma RegroupPadding(a: string, b: string, c: string, d: string, e: string)
    ensures a + (b + c + d) + e == (a + b) + c + (d + e)
  {
  }

  /** `FenceBody` finds a fence only where the pattern matches. */
  lemma FenceBodyMatches(s: string) returns (tag: string, body: string)
    requires FenceBody(s).Some?
    ensures FenceMatch(s, tag, "", body, "", "") && FenceBody(s) == Some(Strip(body))
  {
    UntaggedMatch(s);
    tag, body := s[3..3 + TagLength(s)], Fenced(s);
  }

  /** The fenced text the generator returns unread: it must begin an object. */
  function TrustedFence(s: string): Option<string> {
    match FenceBody(s)
    case Some(body) => if body != [] && body[0] == '{' then Some(body) else None
    case None => None
  }

  ghost function GeneratorObject(text: string): Option<string> {
    match TrustedFence(Strip(text))
    case Some(body) => Some(body)
    case None => FirstObject(Strip(text))
  }

  /** The walk from the first brace, reached when no fence is trusted. */
  method ExtractFromFirstBrace(stripped: string) returns (r: Option<string>)
    ensures r == FirstObject(stripped)
  {
    var start := FirstBrace(stripped);
    if start == |stripped| {
      NoFirstObject(stripped);
      return None;
    }
    var depth: int := 0;
    var inString := false;
    var escaped := false;
    for i := start to |stripped|
      invariant i == start ==> depth == 0 && !inString && !escaped
      invariant i > start ==>
                  && depth > 0
                  && (escaped ==> inString)
                  && StaysOpen(stripped, start + 1, i)
                  && Scan(stripped, start + 1, i) == Lexer(depth, inString, escaped)
    {
      var ch := stripped[i];
      if inString {
        if escaped {
          escaped := false;
        } else if ch == '\\' {
          escaped := true;
        } else if ch == '"' {
          inString := false;
        }
        continue;
      }
      if ch == '"' {
        inString := true;
        continue;
      }
      if ch == '{' {
        depth := depth + 1;
      } else if ch == '}' {
        depth := depth - 1;
        if depth == 0 {
          FoundFirstObject(stripped, i);
          return Some(stripped[start..i + 1]);
        }
      }
    }
    NoFirstObject(stripped);
    return None;
  }

  method ExtractForGenerator(text: string) returns (r: Option<string>)
    ensures r == GeneratorObject(text)
  {
    var stripped := Strip(text);
    if stripped == [] {
      NoFirstObject(stripped);
      return None;
    }
    var fence := FenceBody(stripped);
    if fence.Some? {
      var candidate := fence.value;
      if StartsWith(candidate, "{") {
        return Some(candidate);
      }
    }
    r := ExtractFromFirstBrace(stripped);
  }

  // ----- the two scanners compared -----

  /** Whitespace around a text does not change its first object. */
  lemma FirstObjectOfPadded(before: string, s: string, after: string)
    requires AllSpace(before) && AllSpace(after)
    ensures FirstObject(before + s + after) == FirstObject(s)
  {
    var text := before + s + after;
    var f := FirstBrace(s);
    if f < |s| {
      FirstBraceUnique(text, |before| + f);
      var at := |before| + f;
      forall b | Balanced(b)
        ensures OccursAt(text, at, b) <==> OccursAt(s, f, b)
      {
        OccursInPadded(before, s, after, f, b);
      }
      if FirstObject(text).Some? {
        FirstObjectIs(s, FirstObject(text).value);
      } else if FirstObject(s).Some? {
        FirstObjectIs(text, FirstObject(s).value);
      }
    } else {
      FirstBraceUnique(text, |text|);
    }
  }

  lemma OccursInPadded(before: string, s: string, after: string, at: nat, b: string)
    requires AllSpace(after) && Balanced(b) && at < |s|
    ensures OccursAt(before + s + after, |before| + at, b) <==> OccursAt(s, at, b)
  {
    var text := before + s + after;
    var n := |before|;
    if OccursAt(text, n + at, b) {
      assert text[n + at..n + at + |b|][|b| - 1] == text[n + at + |b| - 1] == '}';
      assert at + |b| > |s| ==> IsSpace(text[n + at + |b| - 1]);
    }
    if at + |b| <= |s| {
      assert text[n + at..n + at + |b|] == s[at..at + |b|];
    }
  }

  lemma FirstObjectOfStripped(text: string)
    ensures FirstObject(Strip(text)) == FirstObject(text)
  {
    var before, after := StripSplits(text);
    FirstObjectOfPadded(before, Strip(text), after);
  }

  /**
   The two scanners agree on every text, except when the generator trusts a fence whose content is not
   exactly one balanced object; there they always differ.
   */
  lemma ScannersAgree(text: string)
    ensures GeneratorObject(text) == FirstObject(text) <==>
            (TrustedFence(Strip(text)).Some? ==> Balanced(TrustedFence(Strip(text)).value))
  {
    FirstObjectOfStripped(text);
    var s := Strip(text);
    if TrustedFence(s).Some? {
      var body := TrustedFence(s).value;
      if Balanced(body) {
        TrustedFenceIsFirst(s);
        FirstObjectIs(s, body);
      }
    }
  }

  const LONE_BRACE := "```{```"

  lemma LoneBraceIsTrusted()
    ensures Strip(LONE_BRACE) == LONE_BRACE && TrustedFence(LONE_BRACE) == Some("{")
  {
    StripOfTrimmed(LONE_BRACE);
    StripOfTrimmed("{");
    hide Strip;
    assert IsFenced(LONE_BRACE) && TagLength(LONE_BRACE) == 0;
    assert Fenced(LONE_BRACE) == "{";
  }

  /** A fence around a lone brace: one scanner returns the brace, the other finds no object. */
  lemma ScannersDiffer()
    ensures GeneratorObject(LONE_BRACE) == Some("{") && FirstObject(LONE_BRACE) == None
  {
    hide Strip, TrustedFence, FirstObject, FirstBrace, Scan;
    LoneBraceIsTrusted();
    NoFirstObjectInLoneBrace();
  }

  lemma NoFirstObjectInLoneBrace()
    ensures FirstObject(LONE_BRACE) == None
  {
    FirstBraceUnique(LONE_BRACE, 3);
    hide FirstBrace, FirstObject;
    forall k | 4 <= k <= 7
      ensures Scan(LONE_BRACE, 4, k) == OPENED
    {
      TicksKeepOpen(LONE_BRACE, k);
    }
    NoFirstObject(LONE_BRACE);
  }

  lemma {:induction false} TicksKeepOpen(text: string, hi: nat)
    requires 4 <= hi <= |text| && forall k :: 4 <= k < |text| ==> text[k] == '`'
    ensures Scan(text, 4, hi) == OPENED
  {
    if hi > 4 {
      TicksKeepOpen(text, hi - 1);
    }
  }

  /** A trusted fence body starts at the first brace of the text. */
  lemma TrustedFenceIsFirst(s: string)
    requires TrustedFence(s).Some?
    ensures OccursAt(s, FirstBrace(s), TrustedFence(s).value)
  {
    hide Strip;
    var before, after := StripSplits(Fenced(s));
    var body := TrustedFence(s).value;
    var lo := 3 + TagLength(s);
    NoBraceBeforeFenced(s);
    SliceOccurs(s, lo, |s| - 3, before, body, after);
    NoBraceInPadding(s, lo, before);
    FirstBraceUnique(s, lo + |before|);
  }

  lemma NoBraceInPadding(s: string, lo: nat, before: string)
    requires AllSpace(before) && OccursAt(s, lo, before)
    ensures forall k :: lo <= k < lo + |before| ==> s[k] != '{'
  {
    var inner := s[lo..lo + |before|];
    assert forall k :: lo <= k < lo + |before| ==> s[k] == inner[k - lo];
  }

  lemma SliceOccurs(s: string, lo: nat, hi: nat, before: string, body: string, after: string)
    requires lo <= hi <= |s| && s[lo..hi] == before + body + after
    ensures OccursAt(s, lo, before) && OccursAt(s, lo + |before|, body)
    ensures body != "" ==> s[lo + |before|] == body[0]
  {
    var at := lo + |before|;
    MiddleOfThree(before, body, after);
    SliceOfSlice(s, lo, hi, 0, |before|);
    SliceOfSlice(s, lo, hi, |before|, |before| + |body|);
    assert body != "" ==> s[at..at + |body|][0] == s[at];
  }

  lemma NoBraceBeforeFenced(s: string)
    requires IsFenced(s)
    ensures forall k :: 0 <= k < 3 + TagLength(s) ==> s[k] != '{'
  {
    assert forall k :: 0 <= k < 3 ==> s[k] == s[..3][k];
    assert TagLength(s) == 4 ==> forall k :: 3 <= k < 7 ==> s[k] == s[3..7][k - 3];
  }

  /** What a scanner returns is balanced and is returned again unchanged by both scanners. */
  lemma ExtractedObjectStable(text: string)
    requires FirstObject(text).Some?
    ensures var b := FirstObject(text).value;
            FirstObject(b) == Some(b) && GeneratorObject(b) == Some(b)
  {
    var b := FirstObject(text).value;
    FirstBraceUnique(b, 0);
    FirstObjectIs(b, b);
    NotFenced(b);
  }

  /** No proper prefix of an extracted object is an object. */
  lemma ExtractedObjectMinimal(text: string, k: nat)
    requires FirstObject(text).Some? && k < |FirstObject(text).value|
    ensures !Balanced(FirstObject(text).value[..k])
  {
    var b := FirstObject(text).value;
    if Balanced(b[..k]) {
      FirstObjectUnique(b, 0, b[..k], b);
    }
  }

  lemma StripOfTrimmed(s: string)
    requires Trimmed(s)
    ensures Strip(s) == s
  {
    StripIs("", s, "");
    assert "" + s + "" == s;
  }

  lemma BraceIsNotFence(b: string)
    requires b != "" && b[0] == '{'
    ensures TrustedFence(b).None?
  {
    hide Strip;
    assert |b| >= 3 ==> b[..3][0] == '{';
  }

  /** An object by itself is neither trimmed nor mistaken for a fence. */
  lemma NotFenced(b: string)
    requires Balanced(b)
    ensures Strip(b) == b && TrustedFence(b).None?
  {
    assert Trimmed(b) && b[0] == '{';
    hide *;
    StripOfTrimmed(b);
    BraceIsNotFence(b);
  }

  /** A fenced object, whatever the spacing and the case of the tag, is recovered exactly. */
  lemma FencedObjectRecovered(outer: string, tag: string, gap: string, b: string, tail: string, end: string)
    requires Balanced(b)
    requires tag == "" || IsJsonTag(tag)
    requires AllSpace(outer) && AllSpace(gap) && AllSpace(tail) && AllSpace(end)
    ensures GeneratorObject(outer + (TICKS + tag + (gap + b + tail) + TICKS) + end) == Some(b)
  {
    var inner := gap + b + tail;
    assert Trimmed(b) && b[0] == '{';
    hide Balanced, Strip, FenceBody, TagLength, AllSpace, IsSpace, IsJsonTag, FirstObject;
    StripIs(gap, b, tail);
    PaddedHead(gap, b, tail);
    NoTagBefore(tag, inner);
    FenceRecovered(tag, inner);
    StripIs(outer, TICKS + tag + inner + TICKS, end);
  }

  lemma PaddedHead(gap: string, b: string, tail: string)
    requires AllSpace(gap) && b != "" && b[0] == '{'
    ensures var inner := gap + b + tail;
            inner != "" && (IsSpace(inner[0]) || inner[0] == '{')
  {
    assert (gap + b + tail)[0] == if gap == "" then b[0] else gap[0];
  }

  lemma FenceRecovered(tag: string, inner: string)
    requires tag == "" || IsJsonTag(tag)
    requires TagLength(TICKS + tag + inner + TICKS) == |tag|
    ensures Trimmed(TICKS + tag + inner + TICKS)
    ensures FenceBody(TICKS + tag + inner + TICKS) == Some(Strip(inner))
  {
    FenceIs(tag, inner);
  }

  /** Fenced content that begins with whitespace or a brace is not taken for the tag. */
  lemma NoTagBefore(tag: string, inner: string)
    requires tag == "" || IsJsonTag(tag)
    requires inner != "" && (IsSpace(inner[0]) || inner[0] == '{')
    ensures TagLength(TICKS + tag + inner + TICKS) == |tag|
  {
    var s := TICKS + tag + inner + TICKS;
    if tag == "" {
      assert |s| >= 10 ==> s[3..7][0] == inner[0];
    } else {
      assert s[3..7] == tag;
    }
  }
}

/**
 Calls to the model provider with retries: `_call_anthropic` of the docs parser and `_call_model` of the
 proposal generator. The provider is an oracle: the n-th post ever made gets the n-th response.
 */
module ModelCalls {
  import opened Basics
  import opened PythonText
  import opened ToolValues

  /** `NetworkDown`: a timeout, network or transport error; `Broken`: any other exception. */
  datatype Response =
    | Answer(status: int, payload: Option<Value>) // payload: None when the body is no JSON
    | NetworkDown
    | Broken

  type Provider = nat -> Response

  predicate IsTransientStatus(status: int) {
    status in {408, 409, 425, 429, 500, 502, 503, 504}
  }

  /** `raise_for_status` lets only 2xx pass. */
  predicate IsSuccess(status: int) {
    200 <= status <= 299
  }

  predicate Transient(r: Response) {
    match r
    case Answer(status, _) => IsTransientStatus(status)
    case NetworkDown => true
    case Broken => false
  }

  /** The statuses that are retried, and those that pass; none is both. */
  lemma StatusesAre(status: int)
    ensures IsTransientStatus(status) <==>
            || status == 408 || status == 409 || status == 425 || status == 429
            || status == 500 || status == 502 || status == 503 || status == 504
    ensures IsSuccess(status) <==> status / 100 == 2
    ensures !(IsTransientStatus(status) && IsSuccess(status))
  {
  }

  // ----- how many posts, and how much sleep -----

  /** The number of posts of one call that may retry `retries` times, its first post being the `first`. */
  function Tries(provider: Provider, first: nat, retries: nat): (n: nat)
    ensures n >= 1
    decreases retries
  {
    if retries > 0 && Transient(provider(first)) then 1 + Tries(provider, first + 1, retries - 1) else 1
  }

  /** A call posts until a response is not transient, and no more than once more than it may retry. */
  lemma {:induction false} TriesIs(provider: Provider, first: nat, retries: nat)
    ensures var n := Tries(provider, first, retries);
            && 1 <= n <= retries + 1
            && (forall i :: first <= i < first + n - 1 ==> Transient(provider(i)))
            && (n == retries + 1 || !Transient(provider(first + n - 1)))
    decreases retries
  {
    hide Transient;
    if retries > 0 && Transient(provider(first)) {
      TriesIs(provider, first + 1, retries - 1);
    }
  }

  /** 1 + 2 + ... + k */
  function Triangle(k: nat): nat {
    k * (k + 1) / 2
  }

  lemma TriangleNext(k: nat)
    ensures Triangle(k + 1) == Triangle(k) + (k + 1)
  {
    assert (k + 1) * (k + 2) == k * (k + 1) + 2 * (k + 1);
  }

  lemma SleepNext(backoff: real, k: nat)
    ensures backoff * Triangle(k) as real + backoff * (k + 1) as real == backoff * Triangle(k + 1) as real
  {
    TriangleNext(k);
    Distribute(backoff, Triangle(k) as real, (k + 1) as real);
  }

  lemma Distribute(a: real, x: real, y: real)
    ensures a * x + a * y == a * (x + y)
  {
  }

  // ----- reading a reply -----

  predicate IsTextBlock(block: Value) {
    block.Dict? && Get(block.entries, "type") == Str("text")
  }

  /** A block that the docs parser takes its text from. */
  predicate HasText(block: Value) {
    IsTextBlock(block) && var text := Get(block.entries, "text"); text.Str? && Strip(text.s) != ""
  }

  function ContentOf(payload: Value): Option<seq<Value>> {
    if payload.Dict? && Get(payload.entries, "content").List? then Some(Get(payload.entries, "content").items)
    else None
  }

  /** The text of the first block that has one. */
  ghost predicate IsFirstText(payload: Value, text: Option<string>) {
    match ContentOf(payload)
    case None => text == None
    case Some(blocks) =>
      match text
      case None => forall i :: 0 <= i < |blocks| ==> !HasText(blocks[i])
      case Some(t) =>
        exists i :: 0 <= i < |blocks| && HasText(blocks[i]) && Get(blocks[i].entries, "text") == Str(t) &&
                    forall j :: 0 <= j < i ==> !HasText(blocks[j])
  }

  /** `_extract_text` of the docs parser */
  method ExtractText(payload: Value) returns (text: Option<string>)
    ensures IsFirstText(payload, text)
  {
    if !payload.Dict? {
      return None;
    }
    var content := Get(payload.entries, "content");
    if !content.List? {
      return None;
    }
    for i := 0 to |content.items|
      invariant forall j :: 0 <= j < i ==> !HasText(content.items[j])
    {
      var block := content.items[i];
      if !block.Dict? {
        continue;
      }
      if Get(block.entries, "type") == Str("text") {
        var t := Get(block.entries, "text");
        if t.Str? && Strip(t.s) != "" {
          return Some(t.s);
        }
      }
    }
    return None;
  }

  lemma FirstTextUnique(payload: Value, a: Option<string>, b: Option<string>)
    requires IsFirstText(payload, a) && IsFirstText(payload, b)
    ensures a == b
    ensures a.Some? ==> a.value != ""
  {
    hide Strip;
    if a.Some? {
      var blocks := ContentOf(payload).value;
      var i :| 0 <= i < |blocks| && HasText(blocks[i]) && Get(blocks[i].entries, "text") == Str(a.value) &&
               forall j :: 0 <= j < i ==> !HasText(blocks[j]);
      TextNotBlank(blocks[i]);
    }
  }

  lemma TextNotBlank(block: Value)
    requires HasText(block)
    ensures Get(block.entries, "text") != Str("")
  {
  }

  /** `item.get("text", "").strip()`; None when the text is no string, which raises. */
  function BlockText(block: Value): Option<string>
    requires block.Dict?
  {
    if "text" !in block.entries then Some("")
    else if block.entries["text"].Str? then Some(Strip(block.entries["text"].s))
    else None
  }

  /** The stripped texts of the text blocks that are not blank; None when reading one of them raises. */
  function Texts(blocks: seq<Value>): (texts: Option<seq<string>>)
    ensures texts.Some? ==> forall i :: 0 <= i < |texts.value| ==> texts.value[i] != ""
  {
    if blocks == [] then Some([])
    else
      var earlier, last := Texts(blocks[..|blocks| - 1]), blocks[|blocks| - 1];
      if earlier.None? || !IsTextBlock(last) then earlier
      else
        match BlockText(last)
        case None => None
        case Some(text) => if text == "" then earlier else Some(earlier.value + [text])
  }

  /** What reading the reply in the generator ends in: an exception, or perhaps a text. */
  datatype Reading = Raises | Reads(text: Option<string>)

  /** `_extract_anthropic_text` */
  function ReadAnthropicText(payload: Value): Reading {
    match ContentOf(payload)
    case None => Reads(None)
    case Some(blocks) =>
      match Texts(blocks)
      case None => Raises
      case Some(texts) => Reads(if texts == [] then None else Some(Join("\n", texts)))
  }

  /** The generator never reads an empty text. */
  lemma NeverReadsEmpty(payload: Value)
    ensures ReadAnthropicText(payload) != Reads(Some(""))
  {
  }

  // ----- the generator's reading, told block by block -----

  ghost predicate TextBlock(block: Value) {
    block.Dict? && "type" in block.entries && block.entries["type"] == Str("text")
  }

  /** A text block that says this; blank ones say nothing. */
  ghost predicate SaysText(block: Value, text: string) {
    && TextBlock(block) && "text" in block.entries && block.entries["text"].Str?
    && text == Strip(block.entries["text"].s) && text != ""
  }

  /** A text block whose text is no string. */
  ghost predicate Garbled(block: Value) {
    TextBlock(block) && "text" in block.entries && !block.entries["text"].Str?
  }

  ghost predicate Silent(block: Value) {
    forall text :: !SaysText(block, text)
  }

  /** The texts are what the blocks at these positions say, in their order, and the other blocks say nothing. */
  ghost predicate TextsAt(blocks: seq<Value>, texts: seq<string>, at: seq<nat>) {
    && |at| == |texts|
    && (forall j :: 0 <= j < |at| ==> at[j] < |blocks| && SaysText(blocks[at[j]], texts[j]))
    && (forall j, k :: 0 <= j < k < |at| ==> at[j] < at[k])
    && (forall i: nat :: i < |blocks| && i !in at ==> Silent(blocks[i]))
  }

  ghost predicate AllRead(blocks: seq<Value>) {
    forall i :: 0 <= i < |blocks| ==> !Garbled(blocks[i])
  }

  /** Without a list of content there is no text; a garbled block raises; else the texts are joined by lines. */
  ghost predicate ReadsAs(payload: Value, reading: Reading) {
    if payload.Dict? && "content" in payload.entries && payload.entries["content"].List? then
      var blocks := payload.entries["content"].items;
      if !AllRead(blocks) then reading == Raises
      else exists texts, at :: TextsAt(blocks, texts, at) &&
             reading == Reads(if texts == [] then None else Some(Join("\n", texts)))
    else reading == Reads(None)
  }

  lemma BlockIs(block: Value)
    ensures IsTextBlock(block) <==> TextBlock(block)
    ensures TextBlock(block) ==>
              && (BlockText(block).None? <==> Garbled(block))
              && forall text :: SaysText(block, text) <==> BlockText(block) == Some(text) && text != ""
    ensures !TextBlock(block) ==> Silent(block) && !Garbled(block)
  {
    hide Strip;
  }

  lemma {:induction false} TextsRead(blocks: seq<Value>) returns (at: seq<nat>)
    ensures Texts(blocks).Some? <==> AllRead(blocks)
    ensures Texts(blocks).Some? ==> TextsAt(blocks, Texts(blocks).value, at)
  {
    if blocks == [] {
      at := [];
    } else {
      var init, last, n: nat := blocks[..|blocks| - 1], blocks[|blocks| - 1], |blocks| - 1;
      var earlier := TextsRead(init);
      BlockIs(last);
      AllReadSnoc(init, last);
      assert blocks == init + [last];
      hide TextBlock, BlockText, SaysText, Garbled, AllRead, TextsAt, Silent;
      at := earlier;
      if Texts(init).Some? && IsTextBlock(last) && BlockText(last).Some? && BlockText(last).value != "" {
        at := earlier + [n];
        TextsSnoc(init, Texts(init).value, earlier, last, BlockText(last).value);
      } else if Texts(init).Some? && Texts(blocks).Some? {
        assert Silent(last) by { SaysNothing(last); }
        SilentSnoc(init, Texts(init).value, earlier, last);
      }
    }
  }

  lemma SaysNothing(block: Value)
    requires !IsTextBlock(block) || BlockText(block) == Some("")
    ensures Silent(block)
  {
    BlockIs(block);
  }

  lemma AllReadSnoc(blocks: seq<Value>, block: Value)
    ensures AllRead(blocks + [block]) <==> AllRead(blocks) && !Garbled(block)
  {
    hide Garbled;
    assert (blocks + [block])[|blocks|] == block;
    if AllRead(blocks + [block]) {
      forall i | 0 <= i < |blocks|
        ensures !Garbled(blocks[i])
      {
        assert (blocks + [block])[i] == blocks[i];
      }
    }
  }

  lemma TextsSnoc(blocks: seq<Value>, texts: seq<string>, at: seq<nat>, block: Value, text: string)
    requires TextsAt(blocks, texts, at) && SaysText(block, text)
    ensures TextsAt(blocks + [block], texts + [text], at + [|blocks|])
  {
    hide SaysText, Silent;
    var n: nat := |blocks|;
    assert n in at + [n];
    forall i: nat | i < |blocks| + 1 && i !in at + [n]
      ensures Silent((blocks + [block])[i])
    {
      assert i != n && i !in at;
    }
  }

  lemma SilentSnoc(blocks: seq<Value>, texts: seq<string>, at: seq<nat>, block: Value)
    requires TextsAt(blocks, texts, at) && Silent(block)
    ensures TextsAt(blocks + [block], texts, at)
  {
    hide SaysText, Silent;
  }

  /** The generator reads a reply as its blocks say. */
  lemma ReadTold(payload: Value)
    ensures ReadsAs(payload, ReadAnthropicText(payload))
  {
    hide AllRead, TextsAt, Texts, Join;
    if ContentOf(payload).Some? {
      var at := TextsRead(ContentOf(payload).value);
    }
  }

  // ----- one call -----

  /** What the docs parser makes of the response it stops at. */
  ghost predicate DocsVerdict(r: Response, text: Option<string>, outcome: string) {
    match r
    case NetworkDown => text == None && outcome == "network"
    case Broken => text == None && outcome == "error"
    case Answer(status, payload) =>
      if IsTransientStatus(status) then text == None && outcome == "http_5xx"
      else if !IsSuccess(status) then text == None && outcome == "http_4xx"
      else if payload.None? then text == None && outcome == "error"
      else IsFirstText(payload.value, text) && outcome == if text.Some? then "ok" else "empty"
  }

  /** What the generator makes of the response it stops at. */
  function GeneratorVerdict(r: Response): Option<string> {
    if r.Answer? && IsSuccess(r.status) && r.payload.Some? then
      match ReadAnthropicText(r.payload.value)
      case Raises => None
      case Reads(text) => text
    else None
  }

  /** The generator has a text exactly when the reply passed, was JSON, and is read as that text. */
  lemma VerdictTold(r: Response, text: string)
    ensures GeneratorVerdict(r) == Some(text) ==>
              r.Answer? && 200 <= r.status < 300 && r.payload.Some? && ReadsAs(r.payload.value, Reads(Some(text)))
    ensures GeneratorVerdict(r) == None ==>
              || !r.Answer? || !(200 <= r.status < 300) || r.payload.None?
              || ReadsAs(r.payload.value, Reads(None)) || ReadsAs(r.payload.value, Raises)
  {
    hide ReadAnthropicText, ReadsAs;
    if r.Answer? && r.payload.Some? {
      ReadTold(r.payload.value);
    }
  }

  lemma GeneratorTextNotEmpty(r: Response)
    ensures GeneratorVerdict(r) != Some("")
  {
    hide ReadAnthropicText;
    if r.Answer? && r.payload.Some? {
      NeverReadsEmpty(r.payload.value);
    }
  }

  /** A client of the provider, with the posts it has made and the time it has slept. */
  class Client {
    const provider: Provider
    const maxRetries: int
    const backoff: real
    var posts: nat
    var slept: real

    constructor (provider: Provider, maxRetries: int, backoff: real)
      ensures this.provider == provider && this.maxRetries == maxRetries && this.backoff == backoff
      ensures posts == 0 && slept == 0.0
    {
      this.provider, this.maxRetries, this.backoff := provider, maxRetries, backoff;
      posts, slept := 0, 0.0;
    }

    /** `_call_anthropic` of the docs parser */
    method CallForDocs() returns (text: Option<string>, outcome: string)
      modifies this
      ensures maxRetries < 0 ==> text == None && outcome == "error" && posts == old(posts) && slept == old(slept)
      ensures maxRetries >= 0 ==>
                var n := Tries(provider, old(posts), maxRetries);
                && posts == old(posts) + n && slept == old(slept) + backoff * Triangle(n - 1) as real
                && DocsVerdict(provider(posts - 1), text, outcome)
    {
      hide *;
      ghost var first, start := posts, slept;
      var attempt := 0;
      TriangleStart(backoff);
      while attempt <= maxRetries
        invariant attempt >= 0 && (if maxRetries < 0 then attempt == 0 else attempt <= maxRetries)
        invariant posts == first + attempt && slept == start + backoff * Triangle(attempt) as real
        invariant maxRetries >= 0 ==>
                    Tries(provider, first, maxRetries) ==
                      attempt + Tries(provider, first + attempt, maxRetries - attempt)
        decreases maxRetries - attempt
      {
        var response := provider(posts);
        TriesUnfold(provider, posts, maxRetries - attempt);
        SleepNext(backoff, attempt);
        posts := posts + 1;
        var last := attempt >= maxRetries;
        match response {
          case NetworkDown =>
            DocsFailure(response);
            if last {
              return None, "network";
            }
          case Broken =>
            DocsFailure(response);
            return None, "error";
          case Answer(status, payload) =>
            DocsFailure(response);
            if IsTransientStatus(status) {
              if last {
                return None, "http_5xx";
              }
            } else if !IsSuccess(status) {
              return None, "http_4xx";
            } else if payload.None? {
              return None, "error";
            } else {
              text := ExtractText(payload.value);
              DocsText(response, text);
              return text, if text.Some? then "ok" else "empty";
            }
        }
        slept := slept + backoff * (attempt + 1) as real;
        attempt := attempt + 1;
      }
      return None, "error";
    }

    /** `_call_model` of the generator */
    method CallForGenerator() returns (text: Option<string>)
      modifies this
      ensures maxRetries < 0 ==> text == None && posts == old(posts) && slept == old(slept)
      ensures maxRetries >= 0 ==>
                var n := Tries(provider, old(posts), maxRetries);
                && posts == old(posts) + n && slept == old(slept) + backoff * Triangle(n - 1) as real
                && text == GeneratorVerdict(provider(posts - 1))
    {
      hide *;
      ghost var first, start := posts, slept;
      var attempt := 0;
      TriangleStart(backoff);
      while attempt <= maxRetries
        invariant attempt >= 0 && (if maxRetries < 0 then attempt == 0 else attempt <= maxRetries)
        invariant posts == first + attempt && slept == start + backoff * Triangle(attempt) as real
        invariant maxRetries >= 0 ==>
                    Tries(provider, first, maxRetries) ==
                      attempt + Tries(provider, first + attempt, maxRetries - attempt)
        decreases maxRetries - attempt
      {
        var response := provider(posts);
        TriesUnfold(provider, posts, maxRetries - attempt);
        SleepNext(backoff, attempt);
        GeneratorReads(response);
        posts := posts + 1;
        var raised, transient := true, response.NetworkDown?;
        if response.Answer? {
          if IsTransientStatus(response.status) {
            transient := true;
          } else if IsSuccess(response.status) && response.payload.Some? {
            var reading := ReadAnthropicText(response.payload.value);
            if reading.Reads? {
              raised := false;
              text := reading.text;
            }
          }
        }
        if !raised {
          return text;
        }
        if attempt >= maxRetries || !transient {
          return None;
        }
        slept := slept + backoff * (attempt + 1) as real;
        attempt := attempt + 1;
      }
      return None;
    }
  }

  lemma TriangleStart(backoff: real)
    ensures backoff * Triangle(0) as real == 0.0
  {
    assert Triangle(0) as real == 0.0;
    assert backoff * 0.0 == 0.0;
  }

  lemma TriesUnfold(provider: Provider, first: nat, retries: int)
    requires retries >= 0
    ensures Tries(provider, first, retries) ==
            if retries > 0 && Transient(provider(first)) then 1 + Tries(provider, first + 1, retries - 1) else 1
    ensures Transient(provider(first)) <==>
            provider(first).NetworkDown? || (provider(first).Answer? && IsTransientStatus(provider(first).status))
  {
  }

  lemma DocsFailure(r: Response)
    ensures r.NetworkDown? ==> DocsVerdict(r, None, "network")
    ensures r.Broken? ==> DocsVerdict(r, None, "error")
    ensures r.Answer? && IsTransientStatus(r.status) ==> DocsVerdict(r, None, "http_5xx")
    ensures r.Answer? && !IsTransientStatus(r.status) && !IsSuccess(r.status) ==> DocsVerdict(r, None, "http_4xx")
    ensures r.Answer? && !IsTransientStatus(r.status) && IsSuccess(r.status) && r.payload.None? ==>
              DocsVerdict(r, None, "error")
  {
    hide IsFirstText;
  }

  lemma DocsText(r: Response, text: Option<string>)
    requires r.Answer? && !IsTransientStatus(r.status) && IsSuccess(r.status) && r.payload.Some?
    requires IsFirstText(r.payload.value, text)
    ensures DocsVerdict(r, text, if text.Some? then "ok" else "empty")
  {
    hide IsFirstText;
  }

  lemma GeneratorReads(r: Response)
    ensures r.Answer? && IsTransientStatus(r.status) ==> !IsSuccess(r.status)
    ensures GeneratorVerdict(r) ==
            if r.Answer? && IsSuccess(r.status) && r.payload.Some? && ReadAnthropicText(r.payload.value).Reads?
            then ReadAnthropicText(r.payload.value).text
            else None
  {
    hide ReadAnthropicText;
  }
}

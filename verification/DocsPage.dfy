/**
 The docs-page parser: one model call, one recorded outcome, and the cleaning of what the model returned.
 */
module DocsPage {
  import opened Basics
  import JsonGrammar
  import opened JsonScanner
  import opened ModelCalls
  import opened PythonText
  import opened ToolValues

  datatype Endpoint = Endpoint(verb: string, path: string, operationId: Option<string>, summary: Option<string>,
                               requiresAuth: bool)

  datatype Extraction = Extraction(providerName: Option<string>, baseUrl: Option<string>, endpoints: seq<Endpoint>,
                                   missingAuthFields: seq<string>)

  /** An exception that leaves the parser. */
  datatype Exception = TypeError | DecodeFailure

  /**
   `json.loads`. Only `NotJson` is the decode error that the parser catches; Python raises other exceptions
   for an integer literal beyond its digit limit and for nesting beyond its recursion limit.
   */
  datatype Decoding = Decoded(value: Value) | NotJson | DecodeRaises

  /**
   The parts of Python that stay uninterpreted: `str.upper`, `str.lower`, `str` of a value that is no string,
   the order in which a dict is iterated, `json.loads` and the HTML clean-up.
   */
  datatype Python = Python(
    upper: string -> string,
    lower: string -> string,
    show: Value -> string,
    keys: Object -> seq<string>,
    loads: string -> Decoding,
    clean: string -> string)

  const VERBS := {"GET", "POST", "PUT", "PATCH", "DELETE"}
  const AUTH_FIELDS := {"api_key", "bearer_token", "basic_auth", "oauth_authorization"}
  const MAX_ENDPOINTS := 50

  function Text(v: Value, py: Python): string {
    if v.Str? then v.s else py.show(v)
  }

  /** `str(v or "").strip()` */
  function StrippedOr(v: Value, py: Python): string {
    Strip(if Truthy(v) then Text(v, py) else "")
  }

  function OrNone(s: string): Option<string> {
    if s == "" then None else Some(s)
  }

  // ----- endpoints -----

  function CleanEndpoint(entry: Value, py: Python): Option<Endpoint> {
    if !entry.Dict? then None
    else
      var d := entry.entries;
      var verb, path := py.upper(StrippedOr(Get(d, "method"), py)), StrippedOr(Get(d, "path"), py);
      if verb !in VERBS || !StartsWith(path, "/") then None
      else
        var id, summary := Get(d, "operation_id"), Get(d, "summary");
        Some(Endpoint(verb, path, if id.Str? || id.Num? then OrNone(Strip(Text(id, py))) else None,
                      if summary.Str? then Some(Strip(summary.s)) else None, Truthy(Get(d, "requires_auth"))))
  }

  /** The entries that survive, in order. */
  function CleanEndpoints(entries: seq<Value>, py: Python): seq<Endpoint> {
    if entries == [] then []
    else
      var cleaned := CleanEndpoint(entries[|entries| - 1], py);
      CleanEndpoints(entries[..|entries| - 1], py) + (if cleaned.Some? then [cleaned.value] else [])
  }

  /** Every endpoint that survives is well formed, and no list grows. */
  lemma {:induction false} EndpointsWellFormed(entries: seq<Value>, py: Python)
    ensures var endpoints := CleanEndpoints(entries, py);
            && |endpoints| <= |entries|
            && forall i :: 0 <= i < |endpoints| ==> endpoints[i].verb in VERBS && StartsWith(endpoints[i].path, "/")
  {
    if entries != [] {
      EndpointsWellFormed(entries[..|entries| - 1], py);
    }
  }

  // ----- authentication fields -----

  function Slug(s: string, py: Python): string {
    Replace(py.lower(Strip(s)), '-', '_')
  }

  predicate IsAuthEntry(entry: Value, py: Python) {
    entry.Str? && Slug(entry.s, py) in AUTH_FIELDS
  }

  /** The known fields among the entries, each at its first occurrence. */
  function AuthFields(entries: seq<Value>, py: Python): seq<string> {
    if entries == [] then []
    else
      var earlier, last := AuthFields(entries[..|entries| - 1], py), entries[|entries| - 1];
      if IsAuthEntry(last, py) && Slug(last.s, py) !in earlier then earlier + [Slug(last.s, py)] else earlier
  }

  lemma {:induction false} AuthFieldsAre(entries: seq<Value>, py: Python)
    ensures Distinct(AuthFields(entries, py))
    ensures forall f :: f in AuthFields(entries, py) <==>
              exists i :: 0 <= i < |entries| && IsAuthEntry(entries[i], py) && Slug(entries[i].s, py) == f
    ensures forall f :: f in AuthFields(entries, py) ==> f in AUTH_FIELDS
  {
    hide Slug;
    if entries != [] {
      AuthFieldsAre(entries[..|entries| - 1], py);
    }
  }

  // ----- what the code iterates over -----

  /** `(raw.get("endpoints") or [])[:50]`; None when slicing raises. */
  function EndpointEntries(raw: Object): Option<seq<Value>> {
    var v := Get(raw, "endpoints");
    if !Truthy(v) then Some([])
    else
      match v
      case List(items) => Some(if |items| <= MAX_ENDPOINTS then items else items[..MAX_ENDPOINTS])
      case Str(s) => Some(Characters(if |s| <= MAX_ENDPOINTS then s else s[..MAX_ENDPOINTS]))
      case _ => None
  }

  function Characters(s: string): seq<Value> {
    seq(|s|, i requires 0 <= i < |s| => Str([s[i]]))
  }

  /** `raw.get("missing_auth_fields") or []`; None when iterating raises. */
  function AuthEntries(raw: Object, py: Python): Option<seq<Value>> {
    var v := Get(raw, "missing_auth_fields");
    if !Truthy(v) then Some([])
    else
      match v
      case List(items) => Some(items)
      case Str(s) => Some(Characters(s))
      case Dict(d) => var keys := py.keys(d); Some(seq(|keys|, i requires 0 <= i < |keys| => Str(keys[i])))
      case _ => None
  }

  function NameOf(v: Value): Option<string> {
    if v.Str? then OrNone(Strip(v.s)) else None
  }

  // ----- what an extraction holds, told of the raw reply -----

  /** A value as text: missing or falsy is empty, and the surrounding whitespace is gone. */
  ghost predicate FieldText(d: Object, key: string, py: Python, text: string) {
    if key in d && Truthy(d[key]) then text == Strip(if d[key].Str? then d[key].s else py.show(d[key]))
    else text == ""
  }

  /** A text or None: only a string that is not blank counts, without its surrounding whitespace. */
  ghost predicate NameText(d: Object, key: string, name: Option<string>) {
    if key in d && d[key].Str? && Strip(d[key].s) != "" then name == Some(Strip(d[key].s)) else name == None
  }

  /** Numbers also name an operation; a blank name is none. */
  ghost predicate OperationName(d: Object, py: Python, id: Option<string>) {
    if "operation_id" in d && (d["operation_id"].Str? || d["operation_id"].Num?) then
      var text := Strip(if d["operation_id"].Str? then d["operation_id"].s else py.show(d["operation_id"]));
      if text == "" then id == None else id == Some(text)
    else id == None
  }

  /** The entry survives as this endpoint. */
  ghost predicate SurvivesAs(entry: Value, py: Python, e: Endpoint) {
    && entry.Dict?
    && (exists verb :: FieldText(entry.entries, "method", py, verb) && e.verb == py.upper(verb))
    && (e.verb == "GET" || e.verb == "POST" || e.verb == "PUT" || e.verb == "PATCH" || e.verb == "DELETE")
    && FieldText(entry.entries, "path", py, e.path) && e.path != "" && e.path[0] == '/'
    && OperationName(entry.entries, py, e.operationId)
    && e.summary == (if "summary" in entry.entries && entry.entries["summary"].Str?
                     then Some(Strip(entry.entries["summary"].s)) else None)
    && (e.requiresAuth <==> "requires_auth" in entry.entries && Truthy(entry.entries["requires_auth"]))
  }

  /** The endpoints are the survivors among the entries, in their order. */
  ghost predicate Survivors(entries: seq<Value>, py: Python, endpoints: seq<Endpoint>, at: seq<nat>) {
    && |at| == |endpoints|
    && (forall j :: 0 <= j < |at| ==> at[j] < |entries| && SurvivesAs(entries[at[j]], py, endpoints[j]))
    && (forall j, k :: 0 <= j < k < |at| ==> at[j] < at[k])
    && (forall i: nat :: i < |entries| && i !in at ==> !Survives(entries[i], py))
  }

  ghost predicate Survives(entry: Value, py: Python) {
    exists e :: SurvivesAs(entry, py, e)
  }

  lemma CleanIs(entry: Value, py: Python, e: Endpoint)
    ensures SurvivesAs(entry, py, e) <==> CleanEndpoint(entry, py) == Some(e)
  {
    if entry.Dict? {
      var d := entry.entries;
      TextIs(d, "method", py);
      TextIs(d, "path", py);
      OperationIs(d, py, e.operationId);
      VerbIs(e.verb);
      hide Strip, FieldText, StrippedOr, OperationName, Text, OrNone, VERBS;
      var path := StrippedOr(Get(d, "path"), py);
      assert StartsWith(path, "/") <==> path != "" && path[0] == '/';
      hide StartsWith;
    }
  }

  lemma VerbIs(verb: string)
    ensures verb in VERBS <==>
            verb == "GET" || verb == "POST" || verb == "PUT" || verb == "PATCH" || verb == "DELETE"
  {
  }

  lemma OperationIs(d: Object, py: Python, name: Option<string>)
    ensures var id := Get(d, "operation_id");
            OperationName(d, py, name) <==>
            name == if id.Str? || id.Num? then OrNone(Strip(Text(id, py))) else None
  {
    hide Strip;
  }

  lemma TextIs(d: Object, key: string, py: Python)
    ensures forall text :: FieldText(d, key, py, text) <==> text == StrippedOr(Get(d, key), py)
  {
    NothingStripped();
    hide Strip;
  }

  lemma NothingStripped()
    ensures Strip("") == ""
  {
  }

  lemma {:induction false} EndpointsSurvive(entries: seq<Value>, py: Python) returns (at: seq<nat>)
    ensures Survivors(entries, py, CleanEndpoints(entries, py), at)
  {
    hide CleanEndpoint, SurvivesAs;
    if entries == [] {
      at := [];
    } else {
      var init, last, n: nat := entries[..|entries| - 1], entries[|entries| - 1], |entries| - 1;
      at := EndpointsSurvive(init, py);
      forall e
        ensures SurvivesAs(last, py, e) <==> CleanEndpoint(last, py) == Some(e)
      {
        CleanIs(last, py, e);
      }
      var before := at;
      if CleanEndpoint(last, py).Some? {
        at := at + [n];
      }
      forall i: nat | i < |entries| && i !in at
        ensures !Survives(entries[i], py)
      {
        if i < n {
          assert i !in before;
          assert init[i] == entries[i];
        }
      }
    }
  }

  /** The lower-cased core of the text with `_` for every `-`. */
  ghost predicate SlugOf(s: string, py: Python, slug: string) {
    var lowered := py.lower(Strip(s));
    |slug| == |lowered| && forall i :: 0 <= i < |slug| ==> slug[i] == if lowered[i] == '-' then '_' else lowered[i]
  }

  ghost predicate NamesAuth(entry: Value, py: Python, field: string) {
    && entry.Str? && SlugOf(entry.s, py, field)
    && (field == "api_key" || field == "bearer_token" || field == "basic_auth" || field == "oauth_authorization")
  }

  /** The fields are the known ones that entries name, each where it is named first. */
  ghost predicate FirstNamed(entries: seq<Value>, py: Python, fields: seq<string>, at: seq<nat>) {
    && |at| == |fields|
    && (forall j :: 0 <= j < |at| ==> at[j] < |entries| && NamesAuth(entries[at[j]], py, fields[j]))
    && (forall j, i :: 0 <= j < |at| && 0 <= i < at[j] ==> !NamesAuth(entries[i], py, fields[j]))
    && (forall j, k :: 0 <= j < k < |at| ==> at[j] < at[k])
    && (forall i, field :: 0 <= i < |entries| && NamesAuth(entries[i], py, field) ==> field in fields)
  }

  lemma AuthIs(entry: Value, py: Python, field: string)
    ensures NamesAuth(entry, py, field) <==> IsAuthEntry(entry, py) && Slug(entry.s, py) == field
  {
    hide Strip;
    if entry.Str? {
      var lowered := py.lower(Strip(entry.s));
      if SlugOf(entry.s, py, field) {
        assert field == Replace(lowered, '-', '_');
      }
    }
  }

  lemma {:induction false} AuthFirstNamed(entries: seq<Value>, py: Python) returns (at: seq<nat>)
    ensures FirstNamed(entries, py, AuthFields(entries, py), at)
  {
    hide AUTH_FIELDS, NamesAuth, Slug;
    if entries == [] {
      at := [];
    } else {
      var init, last, n: nat := entries[..|entries| - 1], entries[|entries| - 1], |entries| - 1;
      at := AuthFirstNamed(init, py);
      var earlier, before := AuthFields(init, py), at;
      forall i, field | 0 <= i < n
        ensures NamesAuth(entries[i], py, field) <==> NamesAuth(init[i], py, field)
      {
      }
      forall field
        ensures NamesAuth(last, py, field) <==> IsAuthEntry(last, py) && Slug(last.s, py) == field
      {
        AuthIs(last, py, field);
      }
      if IsAuthEntry(last, py) && Slug(last.s, py) !in earlier {
        at := at + [n];
      }
    }
  }

  /** Of a list or a text, no more than the first fifty entries. */
  ghost predicate EndpointList(raw: Object, entries: seq<Value>) {
    if "endpoints" !in raw || !Truthy(raw["endpoints"]) then entries == []
    else
      match raw["endpoints"]
      case List(items) => entries <= items && |entries| == if |items| < 50 then |items| else 50
      case Str(s) =>
        && |entries| == (if |s| < 50 then |s| else 50)
        && forall i :: 0 <= i < |entries| ==> entries[i] == Str([s[i]])
      case _ => false
  }

  /** Iterating over a dictionary yields its keys, over a text its characters. */
  ghost predicate AuthList(raw: Object, py: Python, entries: seq<Value>) {
    if "missing_auth_fields" !in raw || !Truthy(raw["missing_auth_fields"]) then entries == []
    else
      match raw["missing_auth_fields"]
      case List(items) => entries == items
      case Str(s) => |entries| == |s| && forall i :: 0 <= i < |s| ==> entries[i] == Str([s[i]])
      case Dict(d) =>
        |entries| == |py.keys(d)| && forall i :: 0 <= i < |entries| ==> entries[i] == Str(py.keys(d)[i])
      case _ => false
  }

  /** What the raw reply says, field by field. */
  ghost predicate Extracts(raw: Object, py: Python, x: Extraction) {
    && (exists entries, at :: EndpointList(raw, entries) && Survivors(entries, py, x.endpoints, at))
    && (exists entries, at :: AuthList(raw, py, entries) && FirstNamed(entries, py, x.missingAuthFields, at))
    && NameText(raw, "provider_name", x.providerName)
    && NameText(raw, "base_url", x.baseUrl)
  }

  lemma EndpointListIs(raw: Object)
    ensures EndpointEntries(raw).Some? ==> EndpointList(raw, EndpointEntries(raw).value)
  {
  }

  lemma AuthListIs(raw: Object, py: Python)
    ensures AuthEntries(raw, py).Some? ==> AuthList(raw, py, AuthEntries(raw, py).value)
  {
  }

  lemma NamesAre(raw: Object, key: string)
    ensures NameText(raw, key, NameOf(Get(raw, key)))
  {
    hide Strip;
  }

  lemma ExtractionSays(raw: Object, py: Python, x: Extraction)
    requires EndpointEntries(raw).Some? && AuthEntries(raw, py).Some?
    requires x.endpoints == CleanEndpoints(EndpointEntries(raw).value, py)
    requires x.missingAuthFields == AuthFields(AuthEntries(raw, py).value, py)
    requires x.providerName == NameOf(Get(raw, "provider_name")) && x.baseUrl == NameOf(Get(raw, "base_url"))
    ensures Extracts(raw, py, x)
  {
    hide EndpointList, AuthList, Survivors, FirstNamed, NameText, NameOf, CleanEndpoints, AuthFields;
    EndpointListIs(raw);
    AuthListIs(raw, py);
    NamesAre(raw, "provider_name");
    NamesAre(raw, "base_url");
    hide EndpointEntries, AuthEntries;
    var at := EndpointsSurvive(EndpointEntries(raw).value, py);
    var at' := AuthFirstNamed(AuthEntries(raw, py).value, py);
  }

  /** `_normalize_extraction` */
  method NormalizeExtraction(raw: Object, py: Python) returns (r: Result<Extraction, Exception>)
    ensures r.Ok? <==> EndpointEntries(raw).Some? && AuthEntries(raw, py).Some?
    ensures r.Err? ==> r.error == TypeError
    ensures r.Ok? ==>
              && r.value.endpoints == CleanEndpoints(EndpointEntries(raw).value, py)
              && r.value.missingAuthFields == AuthFields(AuthEntries(raw, py).value, py)
              && r.value.providerName == NameOf(Get(raw, "provider_name"))
              && r.value.baseUrl == NameOf(Get(raw, "base_url"))
              && Extracts(raw, py, r.value)
  {
    hide Extracts, CleanEndpoint, IsAuthEntry, Slug, EndpointEntries, AuthEntries;
    var rawEndpoints := EndpointEntries(raw);
    if rawEndpoints.None? {
      return Err(TypeError);
    }
    var entries := rawEndpoints.value;
    var endpoints: seq<Endpoint> := [];
    for i := 0 to |entries|
      invariant endpoints == CleanEndpoints(entries[..i], py)
    {
      assert entries[..i + 1][..i] == entries[..i];
      var cleaned := CleanEndpoint(entries[i], py);
      if cleaned.Some? {
        endpoints := endpoints + [cleaned.value];
      }
    }
    assert entries[..|entries|] == entries;
    var rawAuth := AuthEntries(raw, py);
    if rawAuth.None? {
      return Err(TypeError);
    }
    var fields := CollectAuthFields(rawAuth.value, py);
    var x := Extraction(NameOf(Get(raw, "provider_name")), NameOf(Get(raw, "base_url")), endpoints, fields);
    ExtractionSays(raw, py, x);
    return Ok(x);
  }

  /** The second loop, with its `seen` set */
  method CollectAuthFields(entries: seq<Value>, py: Python) returns (fields: seq<string>)
    ensures fields == AuthFields(entries, py)
  {
    hide Slug;
    fields := [];
    var seen: set<string> := {};
    for i := 0 to |entries|
      invariant fields == AuthFields(entries[..i], py)
      invariant forall f :: f in seen <==> f in fields
    {
      assert entries[..i + 1][..i] == entries[..i];
      var entry := entries[i];
      if !entry.Str? {
        continue;
      }
      var slug := Slug(entry.s, py);
      if slug in AUTH_FIELDS && slug !in seen {
        seen := seen + {slug};
        fields := fields + [slug];
      }
    }
    assert entries[..|entries|] == entries;
  }

  // ----- one parse -----

  /** The JSON object a reply holds, when it decodes to one. */
  ghost function ObjectIn(text: string, py: Python): Option<Object> {
    match FirstObject(text)
    case None => None
    case Some(b) =>
      match py.loads(b)
      case Decoded(v) => if v.Dict? then Some(v.entries) else None
      case _ => None
  }

  /** Decoding what the reply holds raises an exception that the parser does not catch. */
  ghost predicate Escapes(text: string, py: Python) {
    FirstObject(text).Some? && py.loads(FirstObject(text).value).DecodeRaises?
  }

  function FallbackReason(outcome: string): string {
    if outcome == "empty" then "empty_result"
    else if outcome == "http_4xx" || outcome == "http_5xx" then "http_error"
    else if outcome == "network" then "network_error"
    else if outcome == "error" then "unexpected_error"
    else outcome
  }

  /** What a parse records about its request; `fallback` is the reason for falling back, if it falls back. */
  datatype Record = Unrecorded | Recorded(outcome: string, fallback: Option<string>)

  ghost function RecordOf(text: Option<string>, outcome: string, py: Python): Record {
    if text.None? then Recorded(outcome, Some(FallbackReason(outcome)))
    else if Escapes(text.value, py) then Unrecorded
    else if ObjectIn(text.value, py).None? then Recorded("parse_error", Some("parse_error"))
    else Recorded("ok", None)
  }

  function OutcomesOf(record: Record): seq<string> {
    if record.Recorded? then [record.outcome] else []
  }

  function FallbacksOf(record: Record): seq<string> {
    if record.Recorded? && record.fallback.Some? then [record.fallback.value] else []
  }

  /** Why no call is made, if none is. */
  function NoCallReason(apiKey: string, html: string, py: Python): Option<string> {
    if apiKey == "" then Some("missing_api_key")
    else if Strip(html) == "" then Some("empty_body")
    else if py.clean(html) == "" then Some("empty_after_cleaning")
    else None
  }

  /** The reasons that fallbacks are counted under. */
  lemma ReasonsAre(apiKey: string, html: string, py: Python)
    ensures FallbackReason("empty") == "empty_result" && FallbackReason("network") == "network_error"
    ensures FallbackReason("http_4xx") == "http_error" && FallbackReason("http_5xx") == "http_error"
    ensures FallbackReason("error") == "unexpected_error"
    ensures NoCallReason(apiKey, html, py) == None <==>
            apiKey != "" && Strip(html) != "" && py.clean(html) != ""
    ensures NoCallReason(apiKey, html, py) == Some("missing_api_key") <==> apiKey == ""
    ensures NoCallReason(apiKey, html, py) == Some("empty_body") <==> apiKey != "" && Strip(html) == ""
    ensures NoCallReason(apiKey, html, py) == Some("empty_after_cleaning") <==>
            apiKey != "" && Strip(html) != "" && py.clean(html) == ""
  {
  }

  /** What a parse returns: None when it falls back, otherwise the extraction unless something raises. */
  ghost predicate Returns(text: Option<string>, py: Python, r: Result<Option<Extraction>, Exception>) {
    if text.None? then r == Ok(None)
    else if Escapes(text.value, py) then r == Err(DecodeFailure)
    else if ObjectIn(text.value, py).None? then r == Ok(None)
    else
      var raw := ObjectIn(text.value, py).value;
      var endpoints, auth := EndpointEntries(raw), AuthEntries(raw, py);
      if endpoints.None? || auth.None? then r == Err(TypeError)
      else
        && r.Ok? && r.value.Some?
        && r.value.value.endpoints == CleanEndpoints(endpoints.value, py)
        && r.value.value.missingAuthFields == AuthFields(auth.value, py)
        && Extracts(raw, py, r.value.value)
  }

  /**
   The parse raises, instead of falling back, exactly when decoding raises anything but a decode error and on
   two malformed shapes of a decoded reply.
   */
  lemma RaisesIff(text: Option<string>, py: Python, r: Result<Option<Extraction>, Exception>)
    requires Returns(text, py, r)
    ensures r == Err(DecodeFailure) <==> text.Some? && Escapes(text.value, py)
    ensures r == Err(TypeError) <==>
            && text.Some? && ObjectIn(text.value, py).Some?
            && var endpoints := Get(ObjectIn(text.value, py).value, "endpoints");
               var auth := Get(ObjectIn(text.value, py).value, "missing_auth_fields");
               || (Truthy(endpoints) && !endpoints.List? && !endpoints.Str?)
               || (Truthy(auth) && (auth.Num? || auth.Bool?))
  {
    hide CleanEndpoints, AuthFields, Characters, FirstObject;
  }

  /** A request goes unrecorded exactly when decoding its reply raises, and then no fallback is recorded either. */
  lemma UnrecordedIff(text: Option<string>, outcome: string, py: Python, r: Result<Option<Extraction>, Exception>)
    requires Returns(text, py, r)
    ensures |OutcomesOf(RecordOf(text, outcome, py))| == if r == Err(DecodeFailure) then 0 else 1
    ensures |FallbacksOf(RecordOf(text, outcome, py))| == if r == Ok(None) then 1 else 0
    ensures OutcomesOf(RecordOf(text, outcome, py)) == ["ok"] <== r.Ok? && r.value.Some?
  {
    hide Escapes, ObjectIn, CleanEndpoints, AuthFields, EndpointEntries, AuthEntries, FallbackReason;
  }

  /** A serialised object after prose without a brace is what the parse reads, whatever comes after it. */
  lemma EmbeddedObjectIsRead(prefix: string, v: JsonGrammar.Value, suffix: string, outcome: string, py: Python)
    requires v.Object? && JsonGrammar.Valid(v) && '{' !in prefix
    ensures var text := prefix + JsonGrammar.Render(v) + suffix;
            match py.loads(JsonGrammar.Render(v))
            case Decoded(decoded) =>
              decoded.Dict? ==>
                ObjectIn(text, py) == Some(decoded.entries) && RecordOf(Some(text), outcome, py) == Recorded("ok", None)
            case NotJson => RecordOf(Some(text), outcome, py) == Recorded("parse_error", Some("parse_error"))
            case DecodeRaises => Escapes(text, py) && RecordOf(Some(text), outcome, py) == Unrecorded
  {
    hide FirstObject, JsonGrammar.Render, JsonGrammar.Valid;
    JsonGrammar.ObjectRecovered(prefix, v, suffix);
  }

  /** A number where the endpoints should be is such a shape, and so is one where the fields should be. */
  lemma NumberRaises(text: string, field: string, n: real, py: Python, r: Result<Option<Extraction>, Exception>)
    requires field == "endpoints" || field == "missing_auth_fields"
    requires n != 0.0 && ObjectIn(text, py) == Some(map[field := Num(n)]) && Returns(Some(text), py, r)
    ensures r == Err(TypeError)
  {
    hide ObjectIn, Returns;
    RaisesIff(Some(text), py, r);
  }

  const DIGIT_LIMIT := 4300

  /** Python refuses integer literals of more than 4300 digits with a plain ValueError. */
  ghost predicate RefusesLongIntegers(py: Python) {
    forall digits: string :: |digits| > DIGIT_LIMIT && JsonGrammar.ValidNumber(Whole(digits)) ==>
      py.loads(OneMember(digits)).DecodeRaises?
  }

  function Whole(digits: string): JsonGrammar.Number {
    JsonGrammar.Number(false, digits, None, None)
  }

  /** `{"a": digits}` */
  function OneMember(digits: string): string {
    "{\"a\": " + digits + "}"
  }

  const NAME := [JsonGrammar.Raw('a')]

  function Members(digits: string): JsonGrammar.Members {
    JsonGrammar.Member("", NAME, "", " ", JsonGrammar.Numeric(Whole(digits)), "", JsonGrammar.NoMembers)
  }

  /** A reply whose only fault is a long integer makes the parse raise, with nothing recorded at all. */
  lemma LongIntegerEscapes(digits: string, outcome: string, py: Python, r: Result<Option<Extraction>, Exception>)
    requires RefusesLongIntegers(py) && |digits| > DIGIT_LIMIT && JsonGrammar.ValidNumber(Whole(digits))
    requires Returns(Some(OneMember(digits)), py, r)
    ensures r == Err(DecodeFailure)
    ensures var record := RecordOf(Some(OneMember(digits)), outcome, py);
            OutcomesOf(record) == [] && FallbacksOf(record) == []
  {
    hide JsonGrammar.Valid, JsonGrammar.ValidNumber, JsonGrammar.Render, OneMember, FirstObject, Members;
    var v := JsonGrammar.Object("", Members(digits));
    OneMemberValid(digits);
    OneMemberRenders(digits);
    EmbeddedObjectIsRead("", v, "", outcome, py);
    assert "" + JsonGrammar.Render(v) + "" == OneMember(digits);
  }

  lemma OneMemberValid(digits: string)
    requires JsonGrammar.ValidNumber(Whole(digits))
    ensures JsonGrammar.Valid(JsonGrammar.Object("", Members(digits)))
  {
    hide JsonGrammar.ValidNumber;
    assert JsonGrammar.Valid(JsonGrammar.Numeric(Whole(digits)));
    assert JsonGrammar.ValidPieces(NAME);
    assert JsonGrammar.ValidMembers(JsonGrammar.NoMembers);
    assert JsonGrammar.ValidMembers(Members(digits));
  }

  lemma NameRenders()
    ensures JsonGrammar.Quoted(NAME) == "\"a\""
  {
    assert NAME[1..] == [];
    assert JsonGrammar.RenderPieces(NAME) == "a";
  }

  lemma DigitsRender(digits: string)
    ensures JsonGrammar.Render(JsonGrammar.Numeric(Whole(digits))) == digits
  {
  }

  lemma OneMemberRenders(digits: string)
    ensures JsonGrammar.Render(JsonGrammar.Object("", Members(digits))) == OneMember(digits)
  {
    NameRenders();
    DigitsRender(digits);
    hide JsonGrammar.Quoted, Whole;
    var value := JsonGrammar.Numeric(Whole(digits));
    var inner := JsonGrammar.RenderMembers(Members(digits));
    assert inner == ("" + "\"a\"" + ("" + ":" + " ") + digits + "") + "";
    assert inner == "\"a\": " + digits;
    assert JsonGrammar.Render(JsonGrammar.Object("", Members(digits))) == ['{'] + ("" + inner) + ['}'];
  }

  /** At most four distinct known fields, and at most fifty endpoints, survive the cleaning. */
  lemma ExtractionBounded(raw: Object, py: Python)
    requires EndpointEntries(raw).Some? && AuthEntries(raw, py).Some?
    ensures |CleanEndpoints(EndpointEntries(raw).value, py)| <= 50
    ensures |AuthFields(AuthEntries(raw, py).value, py)| <= 4
  {
    hide CleanEndpoints, AuthFields, AuthEntries;
    EndpointsWellFormed(EndpointEntries(raw).value, py);
    var fields := AuthFields(AuthEntries(raw, py).value, py);
    AuthFieldsAre(AuthEntries(raw, py).value, py);
    DistinctByCount(fields);
    KnownFields();
    SubsetSize(ToSet(fields), AUTH_FIELDS);
  }

  lemma KnownFields()
    ensures |AUTH_FIELDS| == 4
  {
  }

  /** One call to the provider, from the `first` post up to `posts`. */
  ghost predicate Called(provider: Provider, maxRetries: int, first: nat, posts: nat, text: Option<string>,
                         outcome: string)
  {
    if maxRetries < 0 then posts == first && text == None && outcome == "error"
    else
      posts == first + Tries(provider, first, maxRetries) && DocsVerdict(provider(posts - 1), text, outcome)
  }

  class DocsParser {
    const apiKey: string
    const py: Python
    const client: Client
    var requests: seq<string>
    var fallbacks: seq<string>

    constructor (apiKey: string, py: Python, client: Client)
      ensures this.apiKey == apiKey && this.py == py && this.client == client && requests == [] && fallbacks == []
    {
      this.apiKey, this.py, this.client := apiKey, py, client;
      requests, fallbacks := [], [];
    }

    /** `parse`, up to and including the call */
    method Parse(html: string) returns (r: Result<Option<Extraction>, Exception>)
      modifies this, client
      ensures |fallbacks| == |old(fallbacks)| + (if r == Ok(None) then 1 else 0)
      ensures |requests| == |old(requests)| +
                            (if NoCallReason(apiKey, html, py).Some? || r == Err(DecodeFailure) then 0 else 1)
      ensures var reason := NoCallReason(apiKey, html, py);
              if reason.Some? then
                && r == Ok(None) && requests == old(requests) && fallbacks == old(fallbacks) + [reason.value]
                && client.posts == old(client.posts) && client.slept == old(client.slept)
              else
                exists text, outcome ::
                  && Called(client.provider, client.maxRetries, old(client.posts), client.posts, text, outcome)
                  && requests == old(requests) + OutcomesOf(RecordOf(text, outcome, py))
                  && fallbacks == old(fallbacks) + FallbacksOf(RecordOf(text, outcome, py))
                  && Returns(text, py, r)
    {
      hide Tries, DocsVerdict, RecordOf, Returns, Strip, OutcomesOf, FallbacksOf;
      if apiKey == "" {
        fallbacks := fallbacks + ["missing_api_key"];
        return Ok(None);
      }
      if html == "" || Strip(html) == "" {
        StripNothing();
        fallbacks := fallbacks + ["empty_body"];
        return Ok(None);
      }
      if py.clean(html) == "" {
        fallbacks := fallbacks + ["empty_after_cleaning"];
        return Ok(None);
      }
      ghost var first := client.posts;
      var text, outcome := client.CallForDocs();
      assert Called(client.provider, client.maxRetries, first, client.posts, text, outcome);
      r := ReadReply(text, outcome);
    }

    /** `parse`, from the reply on */
    method ReadReply(text: Option<string>, outcome: string) returns (r: Result<Option<Extraction>, Exception>)
      modifies this`requests, this`fallbacks
      ensures requests == old(requests) + OutcomesOf(RecordOf(text, outcome, py))
      ensures fallbacks == old(fallbacks) + FallbacksOf(RecordOf(text, outcome, py))
      ensures Returns(text, py, r)
      ensures |fallbacks| == |old(fallbacks)| + (if r == Ok(None) then 1 else 0)
      ensures |requests| == |old(requests)| + (if r == Err(DecodeFailure) then 0 else 1)
    {
      hide FirstObject, CleanEndpoints, AuthFields, EndpointEntries, AuthEntries, FallbackReason, Extracts;
      if text.None? {
        requests := requests + [outcome];
        fallbacks := fallbacks + [FallbackReason(outcome)];
        return Ok(None);
      }
      var block := ExtractForDocs(text.value);
      if block.None? {
        requests := requests + ["parse_error"];
        fallbacks := fallbacks + ["parse_error"];
        return Ok(None);
      }
      var raw := py.loads(block.value);
      if raw.DecodeRaises? {
        return Err(DecodeFailure);
      }
      if raw.NotJson? || !raw.value.Dict? {
        requests := requests + ["parse_error"];
        fallbacks := fallbacks + ["parse_error"];
        return Ok(None);
      }
      requests := requests + ["ok"];
      var extraction := NormalizeExtraction(raw.value.entries, py);
      if extraction.Err? {
        return Err(extraction.error);
      }
      return Ok(Some(extraction.value));
    }
  }

  lemma StripNothing()
    ensures Strip("") == ""
  {
  }
}

/**
 The one-shot migration of stored steps to edge-owned outcomes: `_migrate_step`, which rewrites a step's
 JSON in place, its lift to documents, and the rename in classifier traces.
 */
module EdgeOutcomes {
  import opened Basics
  import opened PythonText
  import opened ToolValues

  /** The stored `event_hints`: the key missing, null, some other JSON, or an object of texts. */
  datatype Hints = Absent | NullHints | NotAnObject | Hints(texts: map<string, string>)

  /** A stored transition; a missing condition is the empty one. */
  datatype Transition = Transition(id: string, caption: Option<string>, when: Object)

  /** A stored step; `transitions` is None when missing or null. */
  datatype StepRecord = StepRecord(eventHints: Hints, transitions: Option<seq<Transition>>)

  datatype MigrationError = UnrecognisedEvent(at: nat) | EventNotText(at: nat)

  function TextsOf(hints: Hints): map<string, string> {
    if hints.Hints? then hints.texts else map[]
  }

  // ----- one condition -----

  const LEGACY_PREFIX := "intent_detected:"
  const FALLBACK_PREFIX := "uncertain_understanding:"

  predicate IsLower(c: char) {
    'a' <= c <= 'z'
  }

  predicate IsSlugChar(c: char) {
    IsLower(c) || '0' <= c <= '9' || c == '_'
  }

  /** `[a-z][a-z0-9_]+` */
  predicate IsEventName(name: string) {
    |name| >= 2 && IsLower(name[0]) && forall i :: 0 <= i < |name| ==> IsSlugChar(name[i])
  }

  /** The name in `intent_detected:<name>`, for a stripped value. */
  function EventName(value: string): Option<string> {
    if StartsWith(value, LEGACY_PREFIX) && IsEventName(value[16..]) then Some(value[16..]) else None
  }

  function Kind(when: Object): Value {
    Get(when, "kind")
  }

  predicate IsKind(when: Object, kind: string) {
    Kind(when) == Str(kind)
  }

  /** `(when.get("value") or "").strip()`; None when the value is neither falsy nor a string. */
  function EventValue(when: Object): Option<string> {
    var value := Get(when, "value");
    if !Truthy(value) then Some("") else if value.Str? then Some(Strip(value.s)) else None
  }

  /** Where the legacy `value` of a sibling condition moves to. */
  function RenamedKey(when: Object): Option<string> {
    if IsKind(when, "fact_present") then Some("fact_name")
    else if IsKind(when, "fact_missing") then Some("fact_name")
    else if IsKind(when, "guard_failure") then Some("guard_id")
    else if IsKind(when, "tool_outcome") then Some("outcome")
    else None
  }

  /** `_description_for` */
  function DescriptionFor(event: string, hints: map<string, string>, caption: Option<string>): string {
    var hinted := Strip(if event in hints then hints[event] else "");
    var text := if hinted != "" then hinted else Strip(if caption.Some? then caption.value else "");
    if text == "" || |text| < 8 then "User triggers the " + Replace(event, '_', ' ') + " workflow outcome." else text
  }

  lemma DescriptionLongEnough(event: string, hints: map<string, string>, caption: Option<string>)
    ensures |DescriptionFor(event, hints, caption)| >= 8
  {
  }

  function OutcomeWhen(event: string, description: string): Object {
    map["kind" := Str("outcome"), "event" := Str(event), "description" := Str(description)]
  }

  /** What becomes of one transition. */
  datatype Fate = Dropped | Kept(transition: Transition, changed: bool) | Refused(textual: bool)

  function FateOf(t: Transition, hints: map<string, string>): Fate {
    if IsKind(t.when, "event") then
      match EventValue(t.when)
      case None => Refused(false)
      case Some(value) =>
        if StartsWith(value, FALLBACK_PREFIX) then Dropped
        else
          match EventName(value)
          case None => Refused(true)
          case Some(name) => Kept(t.(when := OutcomeWhen(name, DescriptionFor(name, hints, t.caption))), true)
    else if RenamedKey(t.when).Some? && "value" in t.when then
      Kept(t.(when := (t.when - {"value"})[RenamedKey(t.when).value := t.when["value"]]), true)
    else Kept(t, false)
  }

  // ----- the same migration, told of what is stored and what is written -----

  /** The texts a name may be: a lower-case letter, then one or more of a-z, 0-9 and underscore. */
  ghost predicate IsName(name: string) {
    && |name| >= 2 && 'a' <= name[0] <= 'z'
    && forall i :: 1 <= i < |name| ==> 'a' <= name[i] <= 'z' || '0' <= name[i] <= '9' || name[i] == '_'
  }

  /** The stripped text of a condition's `value`; a missing or falsy value is the empty text. */
  ghost predicate ValueText(when: Object, text: string) {
    if "value" in when && Truthy(when["value"])
    then when["value"].Str? && text == Strip(when["value"].s)
    else text == ""
  }

  ghost predicate HasKind(when: Object, kind: string) {
    "kind" in when && when["kind"] == Str(kind)
  }

  /** The sentence made from an event that nobody described. */
  ghost predicate Synthesised(event: string, text: string) {
    exists words: string :: |words| == |event| &&
      (forall i :: 0 <= i < |event| ==> words[i] == if event[i] == '_' then ' ' else event[i]) &&
      text == "User triggers the " + words + " workflow outcome."
  }

  /** The hint comes first, then the caption; what is shorter than eight characters is replaced. */
  ghost predicate Describes(event: string, hints: map<string, string>, caption: Option<string>, text: string) {
    var hint := if event in hints then Strip(hints[event]) else "";
    var shown := if caption.Some? then Strip(caption.value) else "";
    && (|hint| >= 8 ==> text == hint)
    && (hint == "" && |shown| >= 8 ==> text == shown)
    && (0 < |hint| < 8 || (hint == "" && |shown| < 8) ==> Synthesised(event, text))
  }

  /** An event condition with this name became an outcome. */
  ghost predicate BecomesOutcome(t: Transition, hints: map<string, string>, name: string, when: Object) {
    && IsName(name) && ValueText(t.when, "intent_detected:" + name)
    && when.Keys == {"kind", "event", "description"}
    && when["kind"] == Str("outcome") && when["event"] == Str(name)
    && when["description"].Str? && Describes(name, hints, t.caption, when["description"].s)
  }

  /** The kinds whose `value` got a name of its own. */
  ghost predicate GetsKey(when: Object, key: string) {
    || (HasKind(when, "fact_present") && key == "fact_name")
    || (HasKind(when, "fact_missing") && key == "fact_name")
    || (HasKind(when, "guard_failure") && key == "guard_id")
    || (HasKind(when, "tool_outcome") && key == "outcome")
  }

  /** The value moved to its new key and nothing else did. */
  ghost predicate ValueMoved(before: Object, key: string, after: Object) {
    && "value" in before && key != "value"
    && after.Keys == before.Keys - {"value"} + {key}
    && after[key] == before["value"]
    && forall k :: k in before && k != "value" && k != key ==> after[k] == before[k]
  }

  ghost predicate Legacy(when: Object) {
    "value" in when && exists key :: GetsKey(when, key)
  }

  ghost predicate HoldsFallback(when: Object) {
    exists rest :: ValueText(when, "uncertain_understanding:" + rest)
  }

  ghost predicate HasText(when: Object) {
    exists text :: ValueText(when, text)
  }

  /** What happens to a transition, read off its stored condition. */
  ghost predicate FateTells(t: Transition, hints: map<string, string>, fate: Fate) {
    if HasKind(t.when, "event") then
      if HoldsFallback(t.when) then fate == Dropped
      else match fate
           case Dropped => false
           case Refused(textual) =>
             && (forall name :: IsName(name) ==> !ValueText(t.when, "intent_detected:" + name))
             && (textual <==> HasText(t.when))
           case Kept(kept, changed) =>
             changed && kept.(when := t.when) == t && exists name :: BecomesOutcome(t, hints, name, kept.when)
    else if Legacy(t.when) then
      && fate.Kept? && fate.changed && fate.transition.(when := t.when) == t
      && exists key :: GetsKey(t.when, key) && ValueMoved(t.when, key, fate.transition.when)
    else fate == Kept(t, false)
  }

  lemma ValueTextIs(when: Object, text: string)
    ensures ValueText(when, text) <==> EventValue(when) == Some(text)
  {
  }

  lemma NameIs(value: string, name: string)
    ensures EventName(value) == Some(name) <==> IsName(name) && value == "intent_detected:" + name
  {
    if value == "intent_detected:" + name {
      assert value[16..] == name;
    }
  }

  lemma DescriptionIs(event: string, hints: map<string, string>, caption: Option<string>)
    ensures Describes(event, hints, caption, DescriptionFor(event, hints, caption))
  {
    assert Strip("") == "";
    hide Strip, Synthesised;
    SentenceIs(event);
  }

  lemma SentenceIs(event: string)
    ensures Synthesised(event, "User triggers the " + Replace(event, '_', ' ') + " workflow outcome.")
  {
    var words := Replace(event, '_', ' ');
    assert |words| == |event|;
  }

  lemma KeyIs(when: Object, key: string)
    ensures GetsKey(when, key) <==> RenamedKey(when) == Some(key)
  {
  }

  lemma TranslatedIs(t: Transition, hints: map<string, string>, name: string)
    requires IsName(name) && ValueText(t.when, "intent_detected:" + name)
    ensures BecomesOutcome(t, hints, name, OutcomeWhen(name, DescriptionFor(name, hints, t.caption)))
  {
    DescriptionIs(name, hints, t.caption);
    OutcomeIs(name, DescriptionFor(name, hints, t.caption));
    hide IsName, ValueText, Describes, DescriptionFor, OutcomeWhen;
  }

  lemma FallbackIs(when: Object)
    ensures HoldsFallback(when) <==> EventValue(when).Some? && StartsWith(EventValue(when).value, FALLBACK_PREFIX)
  {
    hide EventValue, ValueText;
    if HoldsFallback(when) {
      var rest :| ValueText(when, "uncertain_understanding:" + rest);
      ValueTextIs(when, "uncertain_understanding:" + rest);
    }
    if EventValue(when).Some? && StartsWith(EventValue(when).value, FALLBACK_PREFIX) {
      var value := EventValue(when).value;
      ValueTextIs(when, value);
      assert value == "uncertain_understanding:" + value[|FALLBACK_PREFIX|..];
    }
  }

  lemma TextIs(when: Object)
    ensures HasText(when) <==> EventValue(when).Some?
  {
    hide ValueText, EventValue;
    if EventValue(when).Some? {
      ValueTextIs(when, EventValue(when).value);
    }
    if HasText(when) {
      var text :| ValueText(when, text);
      ValueTextIs(when, text);
    }
  }

  lemma LegacyNameIs(when: Object, name: string)
    ensures IsName(name) && ValueText(when, "intent_detected:" + name) <==>
            EventValue(when).Some? && EventName(EventValue(when).value) == Some(name)
  {
    hide EventValue, ValueText, IsName, EventName;
    ValueTextIs(when, "intent_detected:" + name);
    if EventValue(when).Some? {
      NameIs(EventValue(when).value, name);
    }
  }

  lemma EventFateTold(t: Transition, hints: map<string, string>)
    requires HasKind(t.when, "event")
    ensures FateTells(t, hints, FateOf(t, hints))
  {
    FallbackIs(t.when);
    forall name
      ensures IsName(name) && ValueText(t.when, "intent_detected:" + name) <==>
              EventValue(t.when).Some? && EventName(EventValue(t.when).value) == Some(name)
    {
      LegacyNameIs(t.when, name);
    }
    TextIs(t.when);
    hide HoldsFallback, HasText, ValueText, EventValue, IsName, EventName, OutcomeWhen, BecomesOutcome, DescriptionFor;
    hide StartsWith, RenamedKey;
    if EventValue(t.when).Some? && EventName(EventValue(t.when).value).Some? {
      TranslatedIs(t, hints, EventName(EventValue(t.when).value).value);
    }
  }

  lemma OutcomeIs(name: string, text: string)
    ensures OutcomeWhen(name, text).Keys == {"kind", "event", "description"}
    ensures OutcomeWhen(name, text)["kind"] == Str("outcome") && OutcomeWhen(name, text)["event"] == Str(name)
    ensures OutcomeWhen(name, text)["description"] == Str(text)
  {
  }

  /** What becomes of a transition is what its stored condition says. */
  lemma FateTold(t: Transition, hints: map<string, string>)
    ensures FateTells(t, hints, FateOf(t, hints))
  {
    if HasKind(t.when, "event") {
      EventFateTold(t, hints);
    } else {
      var fate, key := FateOf(t, hints), RenamedKey(t.when);
      forall k
        ensures GetsKey(t.when, k) <==> key == Some(k)
      {
        KeyIs(t.when, k);
      }
      if key.Some? && "value" in t.when {
        assert ValueMoved(t.when, key.value, fate.transition.when);
        assert GetsKey(t.when, key.value);
      }
    }
  }

  /** Neither a fallback nor of the form that is translated. */
  ghost predicate Untranslatable(when: Object) {
    && HasKind(when, "event") && !HoldsFallback(when)
    && forall name :: IsName(name) ==> !ValueText(when, "intent_detected:" + name)
  }

  /** Which transitions are refused, dropped and kept. */
  lemma FateKinds(t: Transition, hints: map<string, string>)
    ensures FateOf(t, hints).Refused? <==> Untranslatable(t.when)
    ensures FateOf(t, hints).Dropped? <==> HasKind(t.when, "event") && HoldsFallback(t.when)
  {
    FateTold(t, hints);
    hide FateOf, HoldsFallback, ValueText, IsName;
  }

  // ----- one step -----

  predicate AllAccepted(ts: seq<Transition>, hints: map<string, string>) {
    forall i :: 0 <= i < |ts| ==> !FateOf(ts[i], hints).Refused?
  }

  function Surviving(ts: seq<Transition>, hints: map<string, string>): seq<Transition> {
    if ts == [] then []
    else
      var fate := FateOf(ts[|ts| - 1], hints);
      Surviving(ts[..|ts| - 1], hints) + (if fate.Kept? then [fate.transition] else [])
  }

  predicate AnyChanged(ts: seq<Transition>, hints: map<string, string>) {
    exists i :: 0 <= i < |ts| && var fate := FateOf(ts[i], hints); fate.Dropped? || (fate.Kept? && fate.changed)
  }

  /** The stored list after the loop has passed a transition: its condition was rewritten in place. */
  function InPlace(t: Transition, hints: map<string, string>): Transition {
    var fate := FateOf(t, hints);
    if fate.Kept? then fate.transition else t
  }

  function InPlaceAll(ts: seq<Transition>, hints: map<string, string>, done: nat): seq<Transition> {
    seq(|ts|, i requires 0 <= i < |ts| => if i < done then InPlace(ts[i], hints) else ts[i])
  }

  function StoredTransitions(record: StepRecord): seq<Transition> {
    if record.transitions.Some? then record.transitions.value else []
  }

  /** Whether a run that goes through reports a change. */
  predicate Changes(record: StepRecord) {
    || record.eventHints.NotAnObject?
    || record.eventHints.Hints?
    || AnyChanged(StoredTransitions(record), TextsOf(record.eventHints))
  }

  /** The step after a run that goes through. */
  function Migrated(record: StepRecord): StepRecord {
    StepRecord(Absent,
               if Changes(record) then Some(Surviving(StoredTransitions(record), TextsOf(record.eventHints)))
               else record.transitions)
  }

  // ----- the migrated step, told of the fates of its transitions -----

  function IfKept(fate: Fate): seq<Transition> {
    if fate.Kept? then [fate.transition] else []
  }

  function KeptOf(fates: seq<Fate>): seq<Transition> {
    if fates == [] then [] else IfKept(fates[0]) + KeptOf(fates[1..])
  }

  ghost predicate ToldBy(before: StepRecord, after: StepRecord, reported: bool, fates: seq<Fate>) {
    var ts, hints := StoredTransitions(before), TextsOf(before.eventHints);
    && |fates| == |ts| && after.eventHints == Absent
    && (forall i :: 0 <= i < |ts| ==> !fates[i].Refused? && FateTells(ts[i], hints, fates[i]))
    && (reported <==>
        || !(before.eventHints.Absent? || before.eventHints.NullHints?)
        || exists i :: 0 <= i < |fates| && (fates[i].Dropped? || (fates[i].Kept? && fates[i].changed)))
    && after.transitions == if reported then Some(KeptOf(fates)) else before.transitions
  }

  /** A step's migration, told without the functions that compute it. */
  ghost predicate Told(before: StepRecord, after: StepRecord, reported: bool) {
    exists fates :: ToldBy(before, after, reported, fates)
  }

  function FatesOf(ts: seq<Transition>, hints: map<string, string>): (fates: seq<Fate>)
    ensures |fates| == |ts|
  {
    seq(|ts|, i requires 0 <= i < |ts| => FateOf(ts[i], hints))
  }

  lemma {:induction false} KeptOfSnoc(fates: seq<Fate>, fate: Fate)
    ensures KeptOf(fates + [fate]) == KeptOf(fates) + IfKept(fate)
  {
    hide IfKept;
    if fates == [] {
      assert fates + [fate] == [fate] && [fate][1..] == [];
    } else {
      var first, rest := IfKept(fates[0]), fates[1..];
      KeptOfSnoc(rest, fate);
      assert (fates + [fate])[1..] == rest + [fate];
      assert first + (KeptOf(rest) + IfKept(fate)) == (first + KeptOf(rest)) + IfKept(fate);
    }
  }

  lemma SurvivingSnoc(ts: seq<Transition>, hints: map<string, string>)
    requires ts != []
    ensures Surviving(ts, hints) == Surviving(ts[..|ts| - 1], hints) + IfKept(FateOf(ts[|ts| - 1], hints))
    ensures FatesOf(ts, hints) == FatesOf(ts[..|ts| - 1], hints) + [FateOf(ts[|ts| - 1], hints)]
  {
    hide FateOf;
  }

  lemma {:induction false} SurvivingAreKept(ts: seq<Transition>, hints: map<string, string>)
    ensures Surviving(ts, hints) == KeptOf(FatesOf(ts, hints))
  {
    if ts != [] {
      SurvivingSnoc(ts, hints);
      KeptOfSnoc(FatesOf(ts[..|ts| - 1], hints), FateOf(ts[|ts| - 1], hints));
      hide *;
      SurvivingAreKept(ts[..|ts| - 1], hints);
    }
  }

  lemma StepTold(record: StepRecord)
    requires AllAccepted(StoredTransitions(record), TextsOf(record.eventHints))
    ensures Told(record, Migrated(record), Changes(record))
  {
    var ts, hints := StoredTransitions(record), TextsOf(record.eventHints);
    var fates := FatesOf(ts, hints);
    SurvivingAreKept(ts, hints);
    forall i | 0 <= i < |ts|
      ensures fates[i] == FateOf(ts[i], hints) && !fates[i].Refused? && FateTells(ts[i], hints, fates[i])
    {
      FateTold(ts[i], hints);
    }
    hide FateOf, FatesOf, Surviving, KeptOf, FateTells, AllAccepted, TextsOf;
    assert ToldBy(record, Migrated(record), Changes(record), fates);
  }

  /** After a refusal at `at`: the hints are gone, and of the transitions before `at` the kept ones are rewritten. */
  ghost predicate HalfTold(before: StepRecord, after: StepRecord, at: nat) {
    var ts, hints := StoredTransitions(before), TextsOf(before.eventHints);
    && after.eventHints == Absent && after.transitions.Some? && |after.transitions.value| == |ts| && at < |ts|
    && Untranslatable(ts[at].when)
    && (forall j :: 0 <= j < at ==> Rewritten(ts[j], hints, after.transitions.value[j]))
    && (forall j :: at <= j < |ts| ==> after.transitions.value[j] == ts[j])
  }

  ghost predicate Rewritten(t: Transition, hints: map<string, string>, now: Transition) {
    exists fate :: FateTells(t, hints, fate) && !fate.Refused? && now == if fate.Kept? then fate.transition else t
  }

  lemma HalfStepTold(record: StepRecord, at: nat)
    requires var ts, hints := StoredTransitions(record), TextsOf(record.eventHints);
             at < |ts| && AllAccepted(ts[..at], hints) && FateOf(ts[at], hints).Refused?
    ensures HalfTold(record, StepRecord(Absent, Some(InPlaceAll(StoredTransitions(record),
                                                                TextsOf(record.eventHints), at))), at)
  {
    var ts, hints := StoredTransitions(record), TextsOf(record.eventHints);
    FateKinds(ts[at], hints);
    hide FateOf, FateTells, Untranslatable;
    forall j | 0 <= j < at
      ensures Rewritten(ts[j], hints, InPlaceAll(ts, hints, at)[j])
    {
      FateTold(ts[j], hints);
      assert !FateOf(ts[..at][j], hints).Refused?;
    }
    hide Rewritten;
  }

  /** A stored step as the script holds it: a JSON object that it edits in place. */
  class StoredStep {
    var eventHints: Hints
    var transitions: Option<seq<Transition>>

    constructor (record: StepRecord)
      ensures Record() == record
    {
      eventHints, transitions := record.eventHints, record.transitions;
    }

    function Record(): StepRecord
      reads this
    {
      StepRecord(eventHints, transitions)
    }

    /** The branches on one transition's condition. */
    static method Judge(t: Transition, hints: map<string, string>) returns (fate: Fate)
      ensures fate == FateOf(t, hints)
      ensures FateTells(t, hints, fate) && (fate.Refused? <==> Untranslatable(t.when))
      ensures fate.Refused? <==> Malformed(t.when)
      ensures fate.Dropped? <==> IsFallback(t.when)
      ensures fate.Kept? ==>
                && ModernWhen(fate.transition.when) && OutcomeEvent(fate.transition.when) == ComingEvent(t.when)
                && fate.transition.(when := t.when) == t
                && (fate.changed <==> fate.transition != t)
    {
      FateTold(t, hints);
      FateKinds(t, hints);
      FateIs(t, hints);
      KeptIsModern(t, hints);
      KeptEvent(t, hints);
      ChangedShows(t, hints);
      hide ModernWhen, Malformed, IsFallback, OutcomeEvent, ComingEvent, FateTells, Untranslatable;
      var when := t.when;
      if IsKind(when, "event") {
        var value := EventValue(when);
        if value.None? {
          return Refused(false);
        }
        if StartsWith(value.value, FALLBACK_PREFIX) {
          return Dropped;
        }
        var name := EventName(value.value);
        if name.None? {
          return Refused(true);
        }
        return Kept(t.(when := OutcomeWhen(name.value, DescriptionFor(name.value, hints, t.caption))), true);
      }
      var key := RenamedKey(when);
      if key.Some? && "value" in when {
        return Kept(t.(when := (when - {"value"})[key.value := when["value"]]), true);
      }
      return Kept(t, false);
    }

    /** `_migrate_step`; a refused transition leaves the step half rewritten, without its hints. */
    method Migrate() returns (r: Result<bool, MigrationError>)
      modifies this
      ensures r.Ok? <==> AllAccepted(old(StoredTransitions(Record())), TextsOf(old(eventHints)))
      ensures r.Ok? ==> Record() == Migrated(old(Record())) && r.value == Changes(old(Record()))
      ensures r.Ok? ==> Told(old(Record()), Record(), r.value)
      ensures r.Err? ==>
                var ts := old(StoredTransitions(Record()));
                var hints := TextsOf(old(eventHints));
                && r.error.at < |ts|
                && AllAccepted(ts[..r.error.at], hints)
                && FateOf(ts[r.error.at], hints) == Refused(r.error.UnrecognisedEvent?)
                && eventHints == Absent
                && transitions == Some(InPlaceAll(ts, hints, r.error.at))
                && HalfTold(old(Record()), Record(), r.error.at)
    {
      hide FateOf, InPlaceAll, Surviving, AnyChanged, Told, HalfTold;
      ghost var record := Record();
      var changed := false;
      var hints := TextsOf(eventHints);
      if !eventHints.Absent? && !eventHints.NullHints? {
        changed := true;
      }
      ghost var hinted := changed;
      eventHints := Absent;
      var surviving: seq<Transition> := [];
      var ts := if transitions.Some? then transitions.value else [];
      NothingYet(ts, hints);
      for i := 0 to |ts|
        invariant eventHints == Absent
        invariant AllAccepted(ts[..i], hints)
        invariant transitions == if old(transitions).Some? then Some(InPlaceAll(ts, hints, i)) else old(transitions)
        invariant surviving == Surviving(ts[..i], hints)
        invariant changed <==> hinted || AnyChanged(ts[..i], hints)
      {
        var fate := Judge(ts[i], hints);
        OneMore(ts, hints, i);
        match fate
        case Refused(textual) =>
          HalfStepTold(record, i);
          return Err(if textual then UnrecognisedEvent(i) else EventNotText(i));
        case Dropped =>
          changed := true;
          continue;
        case Kept(t, rewritten) =>
          transitions := Some(transitions.value[i := t]);
          changed := changed || rewritten;
          surviving := surviving + [t];
      }
      assert ts[..|ts|] == ts;
      if changed {
        transitions := Some(surviving);
      } else if transitions.Some? {
        UnchangedInPlace(ts, hints);
      }
      StepTold(record);
      return Ok(changed);
    }
  }

  lemma NothingYet(ts: seq<Transition>, hints: map<string, string>)
    ensures InPlaceAll(ts, hints, 0) == ts
    ensures Surviving(ts[..0], hints) == [] && !AnyChanged(ts[..0], hints)
  {
  }

  /** How the loop's state grows by one transition. */
  lemma OneMore(ts: seq<Transition>, hints: map<string, string>, i: nat)
    requires i < |ts|
    ensures |InPlaceAll(ts, hints, i)| == |ts|
    ensures AllAccepted(ts[..i + 1], hints) <==> AllAccepted(ts[..i], hints) && !FateOf(ts[i], hints).Refused?
    ensures var fate := FateOf(ts[i], hints);
            && (AnyChanged(ts[..i + 1], hints) <==>
                AnyChanged(ts[..i], hints) || fate.Dropped? || (fate.Kept? && fate.changed))
            && Surviving(ts[..i + 1], hints) ==
               Surviving(ts[..i], hints) + (if fate.Kept? then [fate.transition] else [])
            && InPlaceAll(ts, hints, i + 1) ==
               if fate.Kept? then InPlaceAll(ts, hints, i)[i := fate.transition] else InPlaceAll(ts, hints, i)
  {
    hide FateOf;
    assert ts[..i + 1][..i] == ts[..i] && ts[..i + 1][i] == ts[i];
    AnyChangedSnoc(ts[..i + 1], hints);
    assert forall k :: 0 <= k < i ==> ts[..i][k] == ts[..i + 1][k];
    assert forall k :: 0 <= k < |ts| && k != i ==> InPlaceAll(ts, hints, i + 1)[k] == InPlaceAll(ts, hints, i)[k];
  }

  lemma AnyChangedSnoc(ts: seq<Transition>, hints: map<string, string>)
    requires ts != []
    ensures var fate := FateOf(ts[|ts| - 1], hints);
            AnyChanged(ts, hints) <==>
            AnyChanged(ts[..|ts| - 1], hints) || fate.Dropped? || (fate.Kept? && fate.changed)
  {
    hide FateOf;
    var init := ts[..|ts| - 1];
    assert forall i :: 0 <= i < |init| ==> ts[i] == init[i];
  }

  lemma UnchangedInPlace(ts: seq<Transition>, hints: map<string, string>)
    requires AllAccepted(ts, hints) && !AnyChanged(ts, hints)
    ensures InPlaceAll(ts, hints, |ts|) == ts
  {
    forall i | 0 <= i < |ts|
      ensures InPlace(ts[i], hints) == ts[i]
    {
      assert !FateOf(ts[i], hints).Refused?;
    }
  }

  // ----- what a migrated step looks like -----

  /** No trace of the legacy shape: no hints, no event condition, no `value` on a renamed kind. */
  predicate ModernWhen(when: Object) {
    !IsKind(when, "event") && !(RenamedKey(when).Some? && "value" in when)
  }

  predicate Modern(record: StepRecord) {
    record.eventHints.Absent? && forall t :: t in StoredTransitions(record) ==> ModernWhen(t.when)
  }

  lemma KeptIsModern(t: Transition, hints: map<string, string>)
    ensures FateOf(t, hints).Kept? ==> ModernWhen(FateOf(t, hints).transition.when)
  {
    var fate := FateOf(t, hints);
    if fate.Kept? && fate.changed && !IsKind(t.when, "event") {
      assert Kind(fate.transition.when) == Kind(t.when);
    }
  }

  lemma {:induction false} SurvivingModern(ts: seq<Transition>, hints: map<string, string>)
    ensures forall t :: t in Surviving(ts, hints) ==> ModernWhen(t.when)
  {
    if ts != [] {
      SurvivingModern(ts[..|ts| - 1], hints);
      KeptIsModern(ts[|ts| - 1], hints);
      hide FateOf, ModernWhen;
    }
  }

  /** A run that reports no change found nothing of the legacy shape in the transitions. */
  lemma UnchangedModern(ts: seq<Transition>, hints: map<string, string>)
    requires AllAccepted(ts, hints)
    ensures !AnyChanged(ts, hints) <==> forall t :: t in ts ==> ModernWhen(t.when)
  {
    forall i | 0 <= i < |ts|
      ensures (var fate := FateOf(ts[i], hints); fate.Dropped? || (fate.Kept? && fate.changed)) <==>
              !ModernWhen(ts[i].when)
    {
      assert !FateOf(ts[i], hints).Refused?;
    }
    hide FateOf, ModernWhen, AllAccepted;
    if AnyChanged(ts, hints) {
      var i :| 0 <= i < |ts| && var fate := FateOf(ts[i], hints); fate.Dropped? || (fate.Kept? && fate.changed);
      assert ts[i] in ts;
    }
  }

  /** After a successful run nothing of the legacy shape is left. */
  lemma MigratedIsModern(record: StepRecord)
    requires AllAccepted(StoredTransitions(record), TextsOf(record.eventHints))
    ensures Modern(Migrated(record))
  {
    hide FateOf, Surviving, ModernWhen, AllAccepted, AnyChanged;
    SurvivingModern(StoredTransitions(record), TextsOf(record.eventHints));
    UnchangedModern(StoredTransitions(record), TextsOf(record.eventHints));
  }

  /** A second run is accepted, reports no change and leaves the step as it is. */
  lemma SecondRunDoesNothing(record: StepRecord)
    requires AllAccepted(StoredTransitions(record), TextsOf(record.eventHints))
    ensures var once := Migrated(record);
            && AllAccepted(StoredTransitions(once), TextsOf(once.eventHints))
            && !Changes(once)
            && Migrated(once) == once
  {
    MigratedIsModern(record);
    var once := Migrated(record);
    ModernAccepted(StoredTransitions(once), TextsOf(once.eventHints));
    UnchangedModern(StoredTransitions(once), TextsOf(once.eventHints));
  }

  lemma ModernAccepted(ts: seq<Transition>, hints: map<string, string>)
    requires forall t :: t in ts ==> ModernWhen(t.when)
    ensures AllAccepted(ts, hints)
  {
    forall i | 0 <= i < |ts|
      ensures !FateOf(ts[i], hints).Refused?
    {
      assert ModernWhen(ts[i].when);
    }
  }

  // ----- what is refused, dropped and kept -----

  /** A stored event condition whose value is neither a fallback nor of the form the migration translates. */
  predicate Malformed(when: Object) {
    IsKind(when, "event") &&
    match EventValue(when)
    case None => true
    case Some(value) => !StartsWith(value, FALLBACK_PREFIX) && EventName(value).None?
  }

  predicate IsFallback(when: Object) {
    IsKind(when, "event") && EventValue(when).Some? && StartsWith(EventValue(when).value, FALLBACK_PREFIX)
  }

  /** The migration fails exactly on a malformed event and drops exactly the fallback transitions. */
  lemma FateIs(t: Transition, hints: map<string, string>)
    ensures FateOf(t, hints).Refused? <==> Malformed(t.when)
    ensures FateOf(t, hints).Dropped? <==> IsFallback(t.when)
    ensures FateOf(t, hints).Kept? ==> FateOf(t, hints).transition.(when := t.when) == t
  {
  }

  function NotFallback(ts: seq<Transition>): seq<Transition> {
    if ts == [] then []
    else NotFallback(ts[..|ts| - 1]) + (if IsFallback(ts[|ts| - 1].when) then [] else [ts[|ts| - 1]])
  }

  /** The survivors are the transitions that are not fallbacks, in their order; only conditions changed. */
  lemma {:induction false} SurvivorsInOrder(ts: seq<Transition>, hints: map<string, string>)
    requires AllAccepted(ts, hints)
    ensures |Surviving(ts, hints)| == |NotFallback(ts)|
    ensures forall i :: 0 <= i < |NotFallback(ts)| ==>
              Surviving(ts, hints)[i] == InPlace(NotFallback(ts)[i], hints)
              && Surviving(ts, hints)[i].(when := NotFallback(ts)[i].when) == NotFallback(ts)[i]
  {
    if ts != [] {
      hide FateOf, IsFallback;
      var last := ts[|ts| - 1];
      assert !FateOf(last, hints).Refused?;
      SurvivorsInOrder(ts[..|ts| - 1], hints);
      FateIs(last, hints);
    }
  }

  // ----- outcome events -----

  /** The outcome event a condition declares, if it is an outcome. */
  function OutcomeEvent(when: Object): Option<Value> {
    if IsKind(when, "outcome") then Some(Get(when, "event")) else None
  }

  /** The outcome event a stored condition will have: its own, or the name in its legacy value. */
  function ComingEvent(when: Object): Option<Value> {
    if IsKind(when, "event") && EventValue(when).Some? && !IsFallback(when) && EventName(EventValue(when).value).Some?
    then Some(Str(EventName(EventValue(when).value).value))
    else OutcomeEvent(when)
  }

  function EventsOf(ts: seq<Transition>): seq<Value> {
    if ts == [] then []
    else
      var e := OutcomeEvent(ts[|ts| - 1].when);
      EventsOf(ts[..|ts| - 1]) + (if e.Some? then [e.value] else [])
  }

  function ComingEvents(ts: seq<Transition>): seq<Value> {
    if ts == [] then []
    else
      var e := ComingEvent(ts[|ts| - 1].when);
      ComingEvents(ts[..|ts| - 1]) + (if e.Some? then [e.value] else [])
  }

  lemma KeptEvent(t: Transition, hints: map<string, string>)
    ensures match FateOf(t, hints)
            case Kept(kept, _) => OutcomeEvent(kept.when) == ComingEvent(t.when)
            case Dropped => ComingEvent(t.when).None?
            case Refused(_) => true
  {
    var fate := FateOf(t, hints);
    if fate.Kept? && fate.changed && !IsKind(t.when, "event") {
      assert Kind(fate.transition.when) == Kind(t.when);
    }
  }

  /** The migrated step's outcome events are known before the run, in order. */
  lemma {:induction false} EventsComing(ts: seq<Transition>, hints: map<string, string>)
    requires AllAccepted(ts, hints)
    ensures EventsOf(Surviving(ts, hints)) == ComingEvents(ts)
  {
    if ts != [] {
      var init, last := ts[..|ts| - 1], ts[|ts| - 1];
      LastOfStep(ts, hints);
      hide FateOf, OutcomeEvent, ComingEvent, EventsOf, ComingEvents, Surviving, AllAccepted;
      EventsComing(init, hints);
      KeptEvent(last, hints);
      if FateOf(last, hints).Kept? {
        EventsSnoc(Surviving(init, hints), FateOf(last, hints).transition);
      } else {
        assert Surviving(ts, hints) == Surviving(init, hints);
      }
    }
  }

  lemma LastOfStep(ts: seq<Transition>, hints: map<string, string>)
    requires ts != [] && AllAccepted(ts, hints)
    ensures var init := ts[..|ts| - 1];
            var fate := FateOf(ts[|ts| - 1], hints);
            var e := ComingEvent(ts[|ts| - 1].when);
            && AllAccepted(init, hints)
            && !fate.Refused?
            && Surviving(ts, hints) == Surviving(init, hints) + (if fate.Kept? then [fate.transition] else [])
            && ComingEvents(ts) == ComingEvents(init) + (if e.Some? then [e.value] else [])
  {
    hide FateOf, ComingEvent;
  }

  lemma EventsSnoc(ts: seq<Transition>, t: Transition)
    ensures var e := OutcomeEvent(t.when);
            EventsOf(ts + [t]) == EventsOf(ts) + (if e.Some? then [e.value] else [])
  {
    assert (ts + [t])[..|ts|] == ts;
  }

  /** A kept transition is flagged exactly when it is not what it was. */
  lemma ChangedShows(t: Transition, hints: map<string, string>)
    ensures FateOf(t, hints).Kept? ==> (FateOf(t, hints).changed <==> FateOf(t, hints).transition != t)
  {
    var fate := FateOf(t, hints);
    if fate.Kept? && fate.changed {
      if IsKind(t.when, "event") {
        assert Kind(fate.transition.when) == Str("outcome");
      } else {
        assert "value" in t.when && "value" !in fate.transition.when;
      }
    }
  }

  /** The surviving list differs from the stored one exactly when a change is flagged. */
  lemma {:induction false} SurvivingDiffersIff(ts: seq<Transition>, hints: map<string, string>)
    requires AllAccepted(ts, hints)
    ensures |Surviving(ts, hints)| <= |ts|
    ensures Surviving(ts, hints) != ts <==> AnyChanged(ts, hints)
  {
    hide *;
    if ts == [] {
      NothingYet(ts, hints);
      assert ts[..0] == ts;
    } else {
      var init, last := ts[..|ts| - 1], ts[|ts| - 1];
      AnyChangedSnoc(ts, hints);
      LastOfStep(ts, hints);
      ChangedShows(last, hints);
      SurvivingDiffersIff(init, hints);
      var fate, kept := FateOf(last, hints), Surviving(init, hints);
      SnocEquals(kept, init, fate, last);
      assert ts == init + [last];
      assert Surviving(ts, hints) == ts <==> kept == init && fate.Kept? && fate.transition == last;
    }
  }

  lemma SnocEquals(kept: seq<Transition>, init: seq<Transition>, fate: Fate, last: Transition)
    requires |kept| <= |init| && !fate.Refused?
    ensures kept + (if fate.Kept? then [fate.transition] else []) == init + [last] <==>
            kept == init && fate.Kept? && fate.transition == last
  {
    var a := kept + (if fate.Kept? then [fate.transition] else []);
    if a == init + [last] {
      assert |a| == |init| + 1;
      assert a[..|init|] == kept && (init + [last])[..|init|] == init;
      assert a[|init|] == last;
    }
  }

  /** A run changes the stored step exactly when it reports a change or removes a null `event_hints`. */
  lemma StepDiffersIff(record: StepRecord)
    requires StepAccepted(record)
    ensures Migrated(record) != record <==> Changes(record) || record.eventHints.NullHints?
  {
    hide Surviving, AnyChanged, AllAccepted;
    SurvivingDiffersIff(StoredTransitions(record), TextsOf(record.eventHints));
  }

  /**
   The reported flag tells whether the step changed, except in exactly one case: null hints on a step whose
   transitions are all modern. There the hints are removed and no change is reported.
   */
  lemma FlagTellsIff(record: StepRecord)
    requires StepAccepted(record)
    ensures (Changes(record) <==> Migrated(record) != record) <==>
            !(record.eventHints.NullHints? && !AnyChanged(StoredTransitions(record), TextsOf(record.eventHints)))
  {
    hide Migrated, AnyChanged, AllAccepted;
    StepDiffersIff(record);
  }

  /** A step with null hints and no transitions is such a case. */
  lemma NullHintsGoUnreported()
    ensures var record := StepRecord(NullHints, None);
            StepAccepted(record) && !Changes(record) && Migrated(record) != record
  {
  }

  /** So the migrated step satisfies the one-transition-per-event rule exactly when those events are distinct. */
  lemma OutcomesUniqueIff(record: StepRecord)
    requires AllAccepted(StoredTransitions(record), TextsOf(record.eventHints))
    ensures Distinct(EventsOf(StoredTransitions(Migrated(record)))) <==>
            Distinct(ComingEvents(StoredTransitions(record)))
  {
    hide FateOf, Surviving, AllAccepted, AnyChanged, EventsOf, ComingEvents, Distinct;
    EventsComing(StoredTransitions(record), TextsOf(record.eventHints));
    SurvivingDiffersIff(StoredTransitions(record), TextsOf(record.eventHints));
  }

  /**
   The new schema: `event` matches `[a-z][a-z0-9_]{2,60}` with at most 60 characters, `description` has 8 or more.
   */
  predicate OutcomeSchemaAccepts(event: string, description: string) {
    && 3 <= |event| <= 60
    && IsLower(event[0])
    && (forall i :: 0 <= i < |event| ==> IsSlugChar(event[i]))
    && |description| >= 8
  }

  /** The migration accepts some names the new schema refuses: exactly those of two or of more than 60 characters. */
  lemma TranslatedEventAcceptedIff(value: string, hints: map<string, string>, caption: Option<string>)
    requires EventName(value).Some?
    ensures var name := EventName(value).value;
            OutcomeSchemaAccepts(name, DescriptionFor(name, hints, caption)) <==> 3 <= |name| <= 60
  {
    DescriptionLongEnough(EventName(value).value, hints, caption);
    hide DescriptionFor;
  }

  /** A name of two characters is translated and then refused. */
  lemma ShortNameRefused(hints: map<string, string>, caption: Option<string>)
    ensures EventName("intent_detected:ab") == Some("ab")
    ensures !OutcomeSchemaAccepts("ab", DescriptionFor("ab", hints, caption))
  {
    hide DescriptionFor;
    var value := "intent_detected:ab";
    assert value[16..] == "ab";
  }

  // ----- documents -----

  ghost predicate DistinctSteps(steps: seq<StoredStep>) {
    forall i, j :: 0 <= i < j < |steps| ==> steps[i] != steps[j]
  }

  function Records(steps: seq<StoredStep>): seq<StepRecord>
    reads steps
  {
    seq(|steps|, i requires 0 <= i < |steps| reads steps => steps[i].Record())
  }

  predicate StepAccepted(record: StepRecord) {
    AllAccepted(StoredTransitions(record), TextsOf(record.eventHints))
  }

  /** A step whose migration was refused at the transition `at`: hints gone, earlier conditions rewritten. */
  ghost predicate HalfMigrated(record: StepRecord, now: StepRecord, at: nat) {
    var ts, hints := StoredTransitions(record), TextsOf(record.eventHints);
    && at < |ts| && AllAccepted(ts[..at], hints) && FateOf(ts[at], hints).Refused?
    && now == StepRecord(Absent, Some(InPlaceAll(ts, hints, at)))
  }

  /** The steps before `n` are migrated, step `n` was refused half way, and the later ones are untouched. */
  ghost predicate StoppedAt(before: seq<StepRecord>, now: seq<StepRecord>, n: nat)
    requires n < |before| == |now|
  {
    && !StepAccepted(before[n])
    && (exists at :: HalfMigrated(before[n], now[n], at))
    && (forall i :: 0 <= i < n ==> StepAccepted(before[i]) && now[i] == Migrated(before[i]))
    && (forall i :: n < i < |before| ==> now[i] == before[i])
  }

  /** `_migrate_document` over the steps of all scenarios: it stops at the first step that is refused. */
  method MigrateDocument(steps: seq<StoredStep>) returns (r: Result<bool, nat>)
    requires DistinctSteps(steps)
    modifies steps
    ensures r.Ok? <==> forall i :: 0 <= i < |steps| ==> StepAccepted(old(Records(steps))[i])
    ensures r.Ok? ==>
              && (forall i :: 0 <= i < |steps| ==> Records(steps)[i] == Migrated(old(Records(steps))[i]))
              && (forall i :: 0 <= i < |steps| ==>
                    Told(old(Records(steps))[i], Records(steps)[i], Changes(old(Records(steps))[i])))
              && (r.value <==> exists i :: 0 <= i < |steps| && Changes(old(Records(steps))[i]))
    ensures r.Err? ==>
              r.error < |steps| && StoppedAt(old(Records(steps)), Records(steps), r.error)
  {
    hide AllAccepted, Migrated, Changes, FateOf, InPlaceAll, Told;
    ghost var before := Records(steps);
    var changed := false;
    for i := 0 to |steps|
      invariant forall k :: 0 <= k < i ==> StepAccepted(before[k]) && steps[k].Record() == Migrated(before[k])
      invariant forall k :: i <= k < |steps| ==> steps[k].Record() == before[k]
      invariant changed <==> exists k :: 0 <= k < i && Changes(before[k])
    {
      var one := steps[i].Migrate();
      if one.Err? {
        ghost var now := Records(steps);
        assert HalfMigrated(before[i], now[i], one.error.at);
        assert StoppedAt(before, now, i) by { hide HalfMigrated; }
        return Err(i);
      }
      if one.value {
        changed := true;
      }
    }
    forall i | 0 <= i < |steps|
      ensures Told(before[i], Records(steps)[i], Changes(before[i]))
    {
      StepTold(before[i]);
    }
    return Ok(changed);
  }

  /** A document that was migrated is accepted again, reports no change and stays as it is. */
  method MigrateTwice(steps: seq<StoredStep>) returns (first: Result<bool, nat>, second: Result<bool, nat>)
    requires DistinctSteps(steps)
    modifies steps
    ensures first.Ok? <==> forall i :: 0 <= i < |steps| ==> StepAccepted(old(Records(steps))[i])
    ensures first.Ok? ==>
              && second == Ok(false)
              && forall i :: 0 <= i < |steps| ==> Records(steps)[i] == Migrated(old(Records(steps))[i])
  {
    hide AllAccepted, Migrated, Changes;
    ghost var before := Records(steps);
    first := MigrateDocument(steps);
    ghost var once := Records(steps);
    second := MigrateDocument(steps);
    if first.Ok? {
      forall i | 0 <= i < |steps|
        ensures StepAccepted(once[i]) && !Changes(once[i]) && Migrated(once[i]) == once[i]
      {
        SecondRunDoesNothing(before[i]);
      }
    }
  }

  /**
   A document is written back only when a change is reported. So exactly the documents whose only legacy
   remains are null hints are changed in memory and never stored.
   */
  lemma DocumentUnwrittenIff(records: seq<StepRecord>)
    requires forall i :: 0 <= i < |records| ==> StepAccepted(records[i])
    ensures var flagged := exists i :: 0 <= i < |records| && Changes(records[i]);
            var changed := exists i :: 0 <= i < |records| && Migrated(records[i]) != records[i];
            (flagged <==> changed) <==>
            (flagged || forall i :: 0 <= i < |records| ==> !records[i].eventHints.NullHints?)
  {
    hide AllAccepted, Migrated, Changes;
    forall i | 0 <= i < |records|
      ensures Migrated(records[i]) != records[i] <==> Changes(records[i]) || records[i].eventHints.NullHints?
    {
      StepDiffersIff(records[i]);
    }
  }

  // ----- classifier traces -----

  /** `_migrate_classifier_json` */
  function MigrateClassifier(blob: Object): (bool, Object) {
    if "intent_name" !in blob then (false, blob)
    else
      var rest := blob - {"intent_name"};
      (true, if "chosen_label" in rest then rest else rest["chosen_label" := blob["intent_name"]])
  }

  /** The old key is gone, an existing new key wins, nothing else moves, and a second run does nothing. */
  lemma ClassifierRenamed(blob: Object)
    ensures var (changed, renamed) := MigrateClassifier(blob);
            && "intent_name" !in renamed
            && (changed <==> renamed != blob)
            && (changed ==> renamed.Keys == blob.Keys - {"intent_name"} + {"chosen_label"})
            && (forall k :: k in blob && k != "intent_name" ==> k in renamed && renamed[k] == blob[k])
            && ("intent_name" in blob && "chosen_label" !in blob ==>
                Get(renamed, "chosen_label") == blob["intent_name"])
            && MigrateClassifier(renamed) == (false, renamed)
  {
  }
}

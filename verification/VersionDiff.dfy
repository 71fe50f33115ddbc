/**
 The diff of two agent versions, step by step: `_fact_changes`, `_step_changes` and the summary that
 `build_agent_diff` counts from them.
 */
module VersionDiff {
  import opened Basics
  import opened Ordering
  import opened PythonDict
  import opened AgentDocument
  import opened KeyedDiff

  /** The fields of a step that review compares; steps no longer have the event hints it also names. */
  datatype Field =
    | NameField | DescriptionField | SayField | EventHintsField | FactRequirementsField | ResponsePolicyField
    | GuardsField | ActionConfigField | WorkloadClassField | ExecutionIsolationField | HandoffField | CompletionField

  const COMPARABLE_FIELDS: seq<Field> :=
    [NameField, DescriptionField, SayField, EventHintsField, FactRequirementsField, ResponsePolicyField,
     GuardsField, ActionConfigField, WorkloadClassField, ExecutionIsolationField, HandoffField, CompletionField]

  predicate FieldDiffers(a: Step, b: Step, field: Field) {
    match field
    case NameField => a.name != b.name
    case DescriptionField => a.description != b.description
    case SayField => a.say != b.say
    case EventHintsField => false
    case FactRequirementsField => a.factRequirements != b.factRequirements
    case ResponsePolicyField => a.responsePolicy != b.responsePolicy
    case GuardsField => a.guards != b.guards
    case ActionConfigField => a.actionConfig != b.actionConfig
    case WorkloadClassField => a.workloadClass != b.workloadClass
    case ExecutionIsolationField => a.executionIsolation != b.executionIsolation
    case HandoffField => a.handoff != b.handoff
    case CompletionField => a.completion != b.completion
  }

  function DifferingFields(a: Step, b: Step, fields: seq<Field>): seq<Field> {
    if fields == [] then []
    else
      var last := fields[|fields| - 1];
      DifferingFields(a, b, fields[..|fields| - 1]) + (if FieldDiffers(a, b, last) then [last] else [])
  }

  /** The listed fields are those in which the two steps differ. */
  ghost predicate FieldByField(a: Step, b: Step, changed: seq<Field>) {
    && (NameField in changed <==> a.name != b.name)
    && (DescriptionField in changed <==> a.description != b.description)
    && (SayField in changed <==> a.say != b.say)
    && EventHintsField !in changed
    && (FactRequirementsField in changed <==> a.factRequirements != b.factRequirements)
    && (ResponsePolicyField in changed <==> a.responsePolicy != b.responsePolicy)
    && (GuardsField in changed <==> a.guards != b.guards)
    && (ActionConfigField in changed <==> a.actionConfig != b.actionConfig)
    && (WorkloadClassField in changed <==> a.workloadClass != b.workloadClass)
    && (ExecutionIsolationField in changed <==> a.executionIsolation != b.executionIsolation)
    && (HandoffField in changed <==> a.handoff != b.handoff)
    && (CompletionField in changed <==> a.completion != b.completion)
  }

  lemma {:induction false} DifferingMembers(a: Step, b: Step, fields: seq<Field>, f: Field)
    ensures f in DifferingFields(a, b, fields) <==> f in fields && FieldDiffers(a, b, f)
  {
    if fields != [] {
      hide FieldDiffers;
      var init, last := fields[..|fields| - 1], fields[|fields| - 1];
      DifferingMembers(a, b, init, f);
      assert fields == init + [last];
    }
  }

  /** Every field is compared. */
  lemma FieldCompared(f: Field)
    ensures f in COMPARABLE_FIELDS
  {
    var n := match f
      case NameField => 0 case DescriptionField => 1 case SayField => 2 case EventHintsField => 3
      case FactRequirementsField => 4 case ResponsePolicyField => 5 case GuardsField => 6 case ActionConfigField => 7
      case WorkloadClassField => 8 case ExecutionIsolationField => 9 case HandoffField => 10
      case CompletionField => 11;
    assert COMPARABLE_FIELDS[n] == f;
  }

  lemma FieldsAreDiffering(a: Step, b: Step)
    ensures FieldByField(a, b, DifferingFields(a, b, COMPARABLE_FIELDS))
  {
    var changed := DifferingFields(a, b, COMPARABLE_FIELDS);
    forall f: Field
      ensures f in changed <==> FieldDiffers(a, b, f)
    {
      DifferingMembers(a, b, COMPARABLE_FIELDS, f);
      FieldCompared(f);
    }
    hide DifferingFields, COMPARABLE_FIELDS;
    assert FieldDiffers(a, b, NameField) <==> NameField in changed;
    assert EventHintsField in changed <==> FieldDiffers(a, b, EventHintsField);
  }

  method ChangedStepFields(source: Step, target: Step) returns (changed: seq<Field>)
    ensures changed == DifferingFields(source, target, COMPARABLE_FIELDS)
    ensures FieldByField(source, target, changed)
  {
    FieldsAreDiffering(source, target);
    hide FieldByField;
    changed := [];
    var fields := COMPARABLE_FIELDS;
    for i := 0 to |fields|
      invariant changed == DifferingFields(source, target, fields[..i])
    {
      assert fields[..i + 1][..i] == fields[..i];
      if FieldDiffers(source, target, fields[i]) {
        changed := changed + [fields[i]];
      }
    }
    assert fields[..|fields|] == fields;
  }

  // ----- step changes -----

  function Whole<T>(t: T): T {
    t
  }

  function TransitionKey(t: Transition): string {
    t.id
  }

  function BindingKey(b: ToolBinding): string {
    b.ref
  }

  function StepKey(s: Step): string {
    s.id
  }

  function TransitionMap(step: Step): map<string, Transition> {
    IndexOf(step.transitions, TransitionKey)
  }

  function BindingMap(step: Step): map<string, ToolBinding> {
    IndexOf(step.toolPolicy, BindingKey)
  }

  datatype StepChange = StepChange(
    base: Change<Step>,
    changedFields: seq<Field>,
    transitionChanges: seq<Change<Transition>>,
    toolPolicyChanges: seq<Change<ToolBinding>>)

  function StepChangeAt(source: map<string, Step>, against: map<string, Step>, k: string): seq<StepChange>
    requires k in source || k in against
  {
    if k !in source then [StepChange(Change(k, Removed, Some(against[k]), None), [], [], [])]
    else if k !in against then [StepChange(Change(k, Added, None, Some(source[k])), [], [], [])]
    else
      var fields := DifferingFields(source[k], against[k], COMPARABLE_FIELDS);
      var transitions := Diff(TransitionMap(source[k]), TransitionMap(against[k]), Whole);
      var bindings := Diff(BindingMap(source[k]), BindingMap(against[k]), Whole);
      if fields != [] || transitions != [] || bindings != [] then
        [StepChange(Change(k, Changed, Some(against[k]), Some(source[k])), fields, transitions, bindings)]
      else []
  }

  function StepChangesAt(source: map<string, Step>, against: map<string, Step>, keys: seq<string>): seq<StepChange>
    requires Covered(keys, source, against)
  {
    if keys == [] then []
    else StepChangesAt(source, against, keys[..|keys| - 1]) + StepChangeAt(source, against, keys[|keys| - 1])
  }

  function StepDiff(source: map<string, Step>, against: map<string, Step>): seq<StepChange> {
    StepChangesAt(source, against, SortedKeys(source.Keys + against.Keys))
  }

  method StepChanges(source: seq<Step>, against: seq<Step>) returns (changes: seq<StepChange>)
    ensures changes == StepDiff(IndexOf(source, StepKey), IndexOf(against, StepKey))
  {
    hide StrictlySorted, IndexOf, Diff, DifferingFields, FieldByField;
    var sourceById, againstById := IndexOf(source, StepKey), IndexOf(against, StepKey);
    var keys := SortedKeys(sourceById.Keys + againstById.Keys);
    changes := [];
    for i := 0 to |keys|
      invariant changes == StepChangesAt(sourceById, againstById, keys[..i])
    {
      var k := keys[i];
      assert keys[..i + 1][..i] == keys[..i];
      assert k in keys;
      if k !in sourceById {
        changes := changes + [StepChange(Change(k, Removed, Some(againstById[k]), None), [], [], [])];
        continue;
      }
      if k !in againstById {
        changes := changes + [StepChange(Change(k, Added, None, Some(sourceById[k])), [], [], [])];
        continue;
      }
      var s, t := sourceById[k], againstById[k];
      var fields := ChangedStepFields(s, t);
      var transitions := DiffItems(s.transitions, t.transitions, TransitionKey, Whole);
      var bindings := DiffItems(s.toolPolicy, t.toolPolicy, BindingKey, Whole);
      if fields != [] || transitions != [] || bindings != [] {
        changes := changes + [StepChange(Change(k, Changed, Some(t), Some(s)), fields, transitions, bindings)];
      }
    }
    assert keys[..|keys|] == keys;
  }

  // ----- a step diff is a keyed diff -----

  /**
   What review sees of a step: the compared fields, the transitions as a map by id, the tool bindings as a
   map by ref. The order of transitions, the confidence threshold and the classifier's facts are not seen.
   */
  datatype StepView = StepView(
    name: string, description: Option<string>, say: Option<string>, factRequirements: seq<FactRequirement>,
    responsePolicy: Content, guards: seq<Content>, actionConfig: Option<Content>, workloadClass: WorkloadClass,
    executionIsolation: ExecutionIsolation, handoff: Option<Content>, completion: Option<Content>,
    transitions: map<string, Transition>, toolPolicy: map<string, ToolBinding>)

  function View(s: Step): StepView {
    StepView(s.name, s.description, s.say, s.factRequirements, s.responsePolicy, s.guards, s.actionConfig,
             s.workloadClass, s.executionIsolation, s.handoff, s.completion, TransitionMap(s), BindingMap(s))
  }

  lemma {:induction false} DifferingFieldsNone(a: Step, b: Step, fields: seq<Field>)
    ensures DifferingFields(a, b, fields) == [] <==> forall f :: f in fields ==> !FieldDiffers(a, b, f)
  {
    if fields != [] {
      var init, last := fields[..|fields| - 1], fields[|fields| - 1];
      DifferingFieldsNone(a, b, init);
      assert fields == init + [last];
    }
  }

  lemma NoFieldDiffers(a: Step, b: Step)
    ensures DifferingFields(a, b, COMPARABLE_FIELDS) == [] <==> forall f: Field :: !FieldDiffers(a, b, f)
  {
    DifferingFieldsNone(a, b, COMPARABLE_FIELDS);
    forall f: Field
      ensures f in COMPARABLE_FIELDS
    {
      FieldCompared(f);
    }
  }

  lemma SameMap<T>(a: map<string, T>, b: map<string, T>)
    ensures Diff(a, b, Whole) == [] <==> a == b
  {
    hide Diff;
    DiffEmptyIff(a, b, Whole);
  }

  /** A shared step is reported exactly when the two versions look different to review. */
  lemma StepReportedIff(source: map<string, Step>, against: map<string, Step>, k: string)
    requires k in source && k in against
    ensures StepChangeAt(source, against, k) == [] <==> View(source[k]) == View(against[k])
  {
    hide Diff, DifferingFields, TransitionMap, BindingMap;
    var a, b := source[k], against[k];
    SameMap(TransitionMap(a), TransitionMap(b));
    SameMap(BindingMap(a), BindingMap(b));
    NoFieldDiffers(a, b);
    FieldsSeen(a, b);
  }

  lemma FieldsSeen(a: Step, b: Step)
    ensures View(a) == View(b) <==>
            && (forall f: Field :: !FieldDiffers(a, b, f))
            && TransitionMap(a) == TransitionMap(b)
            && BindingMap(a) == BindingMap(b)
  {
    hide TransitionMap, BindingMap;
    if forall f: Field :: !FieldDiffers(a, b, f) {
      assert !FieldDiffers(a, b, NameField) && !FieldDiffers(a, b, DescriptionField) && !FieldDiffers(a, b, SayField);
      assert !FieldDiffers(a, b, FactRequirementsField) && !FieldDiffers(a, b, ResponsePolicyField);
      assert !FieldDiffers(a, b, GuardsField) && !FieldDiffers(a, b, ActionConfigField);
      assert !FieldDiffers(a, b, WorkloadClassField) && !FieldDiffers(a, b, ExecutionIsolationField);
      assert !FieldDiffers(a, b, HandoffField) && !FieldDiffers(a, b, CompletionField);
    }
  }

  function Bases(changes: seq<StepChange>): seq<Change<Step>> {
    seq(|changes|, i requires 0 <= i < |changes| => changes[i].base)
  }

  lemma BaseAt(source: map<string, Step>, against: map<string, Step>, k: string)
    requires k in source || k in against
    ensures Bases(StepChangeAt(source, against, k)) == ChangeAt(source, against, View, k)
  {
    if k in source && k in against {
      StepReportedIff(source, against, k);
    }
    hide Diff, DifferingFields, View;
  }

  lemma {:induction false} BasesAt(source: map<string, Step>, against: map<string, Step>, keys: seq<string>)
    requires Covered(keys, source, against)
    ensures Bases(StepChangesAt(source, against, keys)) == ChangesAt(source, against, View, keys)
  {
    if keys != [] {
      hide StepChangeAt, ChangeAt, View;
      BasesAt(source, against, keys[..|keys| - 1]);
      BaseAt(source, against, keys[|keys| - 1]);
    }
  }

  /** So the step diff, like every keyed diff, is an ordered patch up to what review sees. */
  lemma StepDiffIsKeyedDiff(source: map<string, Step>, against: map<string, Step>)
    ensures Bases(StepDiff(source, against)) == Diff(source, against, View)
    ensures SameDump(Apply(Bases(StepDiff(source, against)), against), source, View)
    ensures KeyOrdered(Bases(StepDiff(source, against)))
    ensures Bases(StepDiff(against, source)) == Mirror(Bases(StepDiff(source, against)))
    ensures Balance(Bases(StepDiff(source, against))) == |source| - |against|
    ensures StepDiff(source, source) == []
  {
    hide StepChangesAt, ChangesAt, View, SameDump, KeyOrdered, Mirror, Balance, StrictlySorted;
    assert source.Keys + against.Keys == against.Keys + source.Keys;
    BasesAt(source, against, SortedKeys(source.Keys + against.Keys));
    BasesAt(against, source, SortedKeys(source.Keys + against.Keys));
    BasesAt(source, source, SortedKeys(source.Keys + source.Keys));
    hide Diff, StepDiff;
    DiffIsPatch(source, against, View);
    DiffOrdered(source, against, View);
    DiffAntisymmetric(source, against, View);
    DiffBalances(source, against, View);
    SelfDiffEmpty(source);
  }

  lemma SelfDiffEmpty(source: map<string, Step>)
    ensures Diff(source, source, View) == []
  {
    hide Diff, View;
    DiffEmptyIff(source, source, View);
  }

  // ----- what a reported step change says -----

  /** The changes are those due between the two maps, in the order of their keys. */
  ghost predicate Lists<T(!new)>(changes: seq<Change<T>>, source: map<string, T>, against: map<string, T>) {
    && KeyOrdered(changes)
    && forall c: Change<T> :: c in changes <==> Due(source, against, (t: T) => t, c)
  }

  /** A reported step is new, gone, or shared and different, and then it says in what it differs. */
  ghost predicate Says(source: map<string, Step>, against: map<string, Step>, c: StepChange) {
    var k := c.base.key;
    match c.base.status
    case Removed =>
      && k in against && k !in source && c.base.before == Some(against[k]) && c.base.after == None
      && c.changedFields == [] && c.transitionChanges == [] && c.toolPolicyChanges == []
    case Added =>
      && k in source && k !in against && c.base.before == None && c.base.after == Some(source[k])
      && c.changedFields == [] && c.transitionChanges == [] && c.toolPolicyChanges == []
    case Changed =>
      && k in source && k in against && c.base.before == Some(against[k]) && c.base.after == Some(source[k])
      && FieldByField(source[k], against[k], c.changedFields)
      && Lists(c.transitionChanges, TransitionMap(source[k]), TransitionMap(against[k]))
      && Lists(c.toolPolicyChanges, BindingMap(source[k]), BindingMap(against[k]))
      && (c.changedFields != [] || c.transitionChanges != [] || c.toolPolicyChanges != [])
  }

  lemma DiffLists<T(!new)>(source: map<string, T>, against: map<string, T>)
    ensures Lists(Diff(source, against, Whole), source, against)
  {
    DiffOrdered(source, against, Whole);
    hide Diff, KeyOrdered;
    forall c: Change<T>
      ensures c in Diff(source, against, Whole) <==> Due(source, against, (t: T) => t, c)
    {
      DiffIff(source, against, Whole, c);
    }
  }

  lemma HereSays(source: map<string, Step>, against: map<string, Step>, k: string)
    requires k in source || k in against
    ensures forall c :: c in StepChangeAt(source, against, k) ==> c.base.key == k && Says(source, against, c)
  {
    hide Diff, DifferingFields, TransitionMap, BindingMap, Lists, FieldByField;
    if k in source && k in against {
      PartsSay(source[k], against[k]);
    }
  }

  lemma PartsSay(a: Step, b: Step)
    ensures FieldByField(a, b, DifferingFields(a, b, COMPARABLE_FIELDS))
    ensures Lists(Diff(TransitionMap(a), TransitionMap(b), Whole), TransitionMap(a), TransitionMap(b))
    ensures Lists(Diff(BindingMap(a), BindingMap(b), Whole), BindingMap(a), BindingMap(b))
  {
    hide *;
    FieldsAreDiffering(a, b);
    DiffLists(TransitionMap(a), TransitionMap(b));
    DiffLists(BindingMap(a), BindingMap(b));
  }

  lemma {:induction false} AllSay(source: map<string, Step>, against: map<string, Step>, keys: seq<string>)
    requires Covered(keys, source, against)
    ensures forall c :: c in StepChangesAt(source, against, keys) ==> Says(source, against, c)
  {
    if keys != [] {
      hide StepChangeAt, Says;
      AllSay(source, against, keys[..|keys| - 1]);
      HereSays(source, against, keys[|keys| - 1]);
    }
  }

  /** Every step change says what became of its step; its parts turn the old version's parts into the new ones. */
  lemma StepChangesSay(source: map<string, Step>, against: map<string, Step>, c: StepChange)
    requires c in StepDiff(source, against)
    ensures Says(source, against, c)
    ensures c.base.status == Changed ==>
              var before, after := against[c.base.key], source[c.base.key];
              && Apply(c.transitionChanges, TransitionMap(before)) == TransitionMap(after)
              && Apply(c.toolPolicyChanges, BindingMap(before)) == BindingMap(after)
  {
    hide StrictlySorted, Says, TransitionMap, BindingMap;
    AllSay(source, against, SortedKeys(source.Keys + against.Keys));
    PartsAre(source, against, SortedKeys(source.Keys + against.Keys), c);
    if c.base.status == Changed {
      var before, after := against[c.base.key], source[c.base.key];
      DiffIsExactPatch(TransitionMap(after), TransitionMap(before), Whole);
      DiffIsExactPatch(BindingMap(after), BindingMap(before), Whole);
    }
  }

  lemma {:induction false} PartsAre(source: map<string, Step>, against: map<string, Step>, keys: seq<string>,
                                    c: StepChange)
    requires Covered(keys, source, against) && c in StepChangesAt(source, against, keys)
    ensures c.base.status == Changed ==>
              && c.base.key in source && c.base.key in against
              && c.transitionChanges ==
                 Diff(TransitionMap(source[c.base.key]), TransitionMap(against[c.base.key]), Whole)
              && c.toolPolicyChanges == Diff(BindingMap(source[c.base.key]), BindingMap(against[c.base.key]), Whole)
  {
    hide Diff, DifferingFields, TransitionMap, BindingMap;
    var init := keys[..|keys| - 1];
    if c in StepChangesAt(source, against, init) {
      PartsAre(source, against, init, c);
    }
  }

  /** Transitions are compared by id and tool bindings by ref, a later one of the same key replacing an earlier. */
  lemma PartsByKey(step: Step)
    ensures IndexedBy(step.transitions, (t: Transition) => t.id, TransitionMap(step))
    ensures IndexedBy(step.toolPolicy, (b: ToolBinding) => b.ref, BindingMap(step))
  {
    IndexIs(step.transitions, TransitionKey);
    IndexIs(step.toolPolicy, BindingKey);
    hide IndexOf;
    SameKeys(step.transitions, TransitionKey, (t: Transition) => t.id, TransitionMap(step));
    SameKeys(step.toolPolicy, BindingKey, (b: ToolBinding) => b.ref, BindingMap(step));
  }

  lemma SameKeys<T>(items: seq<T>, key: T -> string, key': T -> string, index: map<string, T>)
    requires IndexedBy(items, key, index) && forall i :: 0 <= i < |items| ==> key(items[i]) == key'(items[i])
    ensures IndexedBy(items, key', index)
  {
    forall i | LastOfKey(items, key', i)
      ensures LastOfKey(items, key, i)
    {
    }
  }

  /** Changing only the confidence threshold or the classifier's facts of steps is invisible to review. */
  lemma InvisibleEdits(source: map<string, Step>, against: map<string, Step>)
    requires source.Keys == against.Keys
    requires forall k :: k in source ==>
               source[k] == against[k].(confidenceThreshold := source[k].confidenceThreshold,
                                        classifierUsesFacts := source[k].classifierUsesFacts)
    ensures StepDiff(source, against) == []
  {
    hide StepDiff, Diff;
    StepDiffIsKeyedDiff(source, against);
    DiffEmptyIff(source, against, View);
    assert |Bases(StepDiff(source, against))| == |StepDiff(source, against)|;
  }

  // ----- transition counts -----

  /** Added less removed transitions over all step changes, as the summary counts them. */
  function TransitionBalance(changes: seq<StepChange>): int {
    if changes == [] then 0
    else TransitionBalance(changes[..|changes| - 1]) + Balance(changes[|changes| - 1].transitionChanges)
  }

  /** The growth in transitions over the steps both versions have. */
  function SharedGrowth(source: map<string, Step>, against: map<string, Step>, keys: seq<string>): int {
    if keys == [] then 0
    else
      var k := keys[|keys| - 1];
      SharedGrowth(source, against, keys[..|keys| - 1])
      + (if k in source && k in against then |TransitionMap(source[k])| - |TransitionMap(against[k])| else 0)
  }

  /** Two versions that differ in a threshold, and a diff that says they do not. */
  lemma ThresholdIsInvisible(step: Step, threshold: Option<real>)
    requires threshold != step.confidenceThreshold
    ensures var edited := step.(confidenceThreshold := threshold);
            map[step.id := edited] != map[step.id := step] &&
              StepDiff(map[step.id := edited], map[step.id := step]) == []
  {
    hide StepDiff;
    var edited := step.(confidenceThreshold := threshold);
    var source, against := map[step.id := edited], map[step.id := step];
    assert source[step.id] != against[step.id];
    InvisibleEdits(source, against);
  }

  lemma TransitionBalanceConcat(changes: seq<StepChange>, here: seq<StepChange>)
    requires |here| <= 1
    ensures TransitionBalance(changes + here) ==
            TransitionBalance(changes) + (if here == [] then 0 else Balance(here[0].transitionChanges))
  {
    hide Balance;
    if here == [] {
      assert changes + here == changes;
    } else {
      assert (changes + here)[..|changes + here| - 1] == changes;
    }
  }

  lemma HereTransitions(source: map<string, Step>, against: map<string, Step>, k: string)
    requires k in source || k in against
    ensures var here := StepChangeAt(source, against, k);
            && |here| <= 1
            && (if here == [] then 0 else Balance(here[0].transitionChanges)) ==
               (if k in source && k in against then |TransitionMap(source[k])| - |TransitionMap(against[k])| else 0)
  {
    if k in source && k in against {
      hide Diff, DifferingFields, TransitionMap, BindingMap, Balance;
      DiffBalances(TransitionMap(source[k]), TransitionMap(against[k]), Whole);
      SameMap(TransitionMap(source[k]), TransitionMap(against[k]));
    }
  }

  lemma {:induction false} TransitionsBalanceAt(source: map<string, Step>, against: map<string, Step>,
                                                keys: seq<string>)
    requires Covered(keys, source, against)
    ensures TransitionBalance(StepChangesAt(source, against, keys)) == SharedGrowth(source, against, keys)
  {
    if keys != [] {
      hide StepChangeAt, TransitionMap, Balance;
      TransitionsBalanceAt(source, against, keys[..|keys| - 1]);
      HereTransitions(source, against, keys[|keys| - 1]);
      TransitionBalanceConcat(StepChangesAt(source, against, keys[..|keys| - 1]),
                              StepChangeAt(source, against, keys[|keys| - 1]));
    }
  }

  /** The summary's transition counts balance over the steps both versions have. */
  lemma TransitionsBalance(source: map<string, Step>, against: map<string, Step>)
    ensures TransitionBalance(StepDiff(source, against)) ==
            SharedGrowth(source, against, SortedKeys(source.Keys + against.Keys))
  {
    hide StrictlySorted, StepChangesAt, SharedGrowth, TransitionBalance;
    TransitionsBalanceAt(source, against, SortedKeys(source.Keys + against.Keys));
  }

  function AllTransitions(steps: map<string, Step>, keys: seq<string>): nat {
    if keys == [] then 0
    else
      var k := keys[|keys| - 1];
      AllTransitions(steps, keys[..|keys| - 1]) + (if k in steps then |TransitionMap(steps[k])| else 0)
  }

  function OnlyIn(steps: map<string, Step>, other: map<string, Step>): map<string, Step> {
    map k | k in steps && k !in other :: steps[k]
  }

  lemma {:induction false} GrowthSplits(source: map<string, Step>, against: map<string, Step>, keys: seq<string>)
    ensures SharedGrowth(source, against, keys) ==
            AllTransitions(source, keys) - AllTransitions(against, keys)
            - AllTransitions(OnlyIn(source, against), keys) + AllTransitions(OnlyIn(against, source), keys)
  {
    if keys != [] {
      hide TransitionMap;
      GrowthSplits(source, against, keys[..|keys| - 1]);
    }
  }

  /**
   Over whole versions the summary's transition counts balance exactly when the steps only one version
   has hold equally many transitions on either side.
   */
  lemma WholeVersionsBalanceIff(source: map<string, Step>, against: map<string, Step>)
    ensures var keys := SortedKeys(source.Keys + against.Keys);
            TransitionBalance(StepDiff(source, against)) ==
              AllTransitions(source, keys) - AllTransitions(against, keys) <==>
            AllTransitions(OnlyIn(source, against), keys) == AllTransitions(OnlyIn(against, source), keys)
  {
    hide StrictlySorted, StepDiff, SharedGrowth, AllTransitions, OnlyIn, TransitionBalance;
    TransitionsBalance(source, against);
    GrowthSplits(source, against, SortedKeys(source.Keys + against.Keys));
  }
}

/**
 The compiler that replaces the document's linear scans by dictionary indexes, and the runtime entry
 built from its result.
 */
module CompiledDocument {
  import opened Basics
  import opened PythonText
  import opened PythonDict
  import opened AgentDocument
  import opened Reachability

  datatype CompiledStep = CompiledStep(
    step: Step,
    scenarioId: string,
    transitionTargetIds: seq<string>,
    availableToolRefs: seq<string>,
    factRequirementNames: seq<string>,
    scriptedSay: Option<string>,
    collectsMissingDetails: bool,
    usesTooling: bool,
    handsOff: bool,
    completes: bool,
    workloadClass: WorkloadClass,
    executionIsolation: ExecutionIsolation)

  datatype CompiledScenario = CompiledScenario(scenario: Scenario, steps: seq<CompiledStep>)

  datatype Compiled = Compiled(
    document: Document,
    scenarios: seq<CompiledScenario>,
    steps: seq<CompiledStep>,
    scenarioById: Dict<CompiledScenario>,
    stepById: Dict<CompiledStep>,
    scenarioByStepId: Dict<CompiledScenario>)

  // ----- one step -----

  function AvailableToolRefs(policy: seq<ToolBinding>): seq<string> {
    if policy == [] then []
    else
      var last := policy[|policy| - 1];
      AvailableToolRefs(policy[..|policy| - 1]) + (if last.mode != Blocked && last.ref != "" then [last.ref] else [])
  }

  predicate UsesTooling(step: Step) {
    step.actionConfig.Some? || exists b :: b in step.toolPolicy && b.mode != Blocked
  }

  function ScriptedSay(step: Step): Option<string> {
    if step.say.Some? && Strip(step.say.value) != "" then Some(Strip(step.say.value)) else None
  }

  function RequirementNames(step: Step): seq<string> {
    seq(|step.factRequirements|, i requires 0 <= i < |step.factRequirements| => step.factRequirements[i].name)
  }

  function CompileStep(step: Step, scenarioId: string): CompiledStep {
    CompiledStep(step, scenarioId, TransitionTargets(step), AvailableToolRefs(step.toolPolicy), RequirementNames(step),
                 ScriptedSay(step), step.factRequirements != [], UsesTooling(step), step.handoff.Some?,
                 step.completion.Some?, step.workloadClass, step.executionIsolation)
  }

  function CompileSteps(scenario: Scenario): seq<CompiledStep> {
    seq(|scenario.steps|, i requires 0 <= i < |scenario.steps| => CompileStep(scenario.steps[i], scenario.id))
  }

  function CompileScenario(scenario: Scenario): CompiledScenario {
    CompiledScenario(scenario, CompileSteps(scenario))
  }

  // ----- what the loops insert, in order -----

  function CompiledItemsOf(scenario: Scenario): seq<(string, CompiledStep)> {
    seq(|scenario.steps|, i requires 0 <= i < |scenario.steps| =>
        (scenario.steps[i].id, CompileStep(scenario.steps[i], scenario.id)))
  }

  function CompiledItems(scenarios: seq<Scenario>): seq<(string, CompiledStep)> {
    if scenarios == [] then []
    else CompiledItems(scenarios[..|scenarios| - 1]) + CompiledItemsOf(scenarios[|scenarios| - 1])
  }

  function OwnerItemsOf(scenario: Scenario): seq<(string, CompiledScenario)> {
    seq(|scenario.steps|, i requires 0 <= i < |scenario.steps| => (scenario.steps[i].id, CompileScenario(scenario)))
  }

  function OwnerItems(scenarios: seq<Scenario>): seq<(string, CompiledScenario)> {
    if scenarios == [] then []
    else OwnerItems(scenarios[..|scenarios| - 1]) + OwnerItemsOf(scenarios[|scenarios| - 1])
  }

  function CompiledScenarioItems(scenarios: seq<Scenario>): seq<(string, CompiledScenario)> {
    seq(|scenarios|, i requires 0 <= i < |scenarios| => (scenarios[i].id, CompileScenario(scenarios[i])))
  }

  function CompiledOf(doc: Document): Compiled {
    var stepById := FromItems(CompiledItems(doc.scenarios));
    FromItemsWellFormed(CompiledItems(doc.scenarios));
    Compiled(doc,
             Payloads(CompiledScenarioItems(doc.scenarios)),
             Values(stepById),
             FromItems(CompiledScenarioItems(doc.scenarios)),
             stepById,
             FromItems(OwnerItems(doc.scenarios)))
  }

  // ----- the compiler -----

  lemma FromItemsPut<T>(items: seq<(string, T)>, key: string, value: T)
    ensures FromItems(items + [(key, value)]) == Put(FromItems(items), key, value)
  {
    assert (items + [(key, value)])[..|items|] == items;
  }

  method CompileScenarioSteps(scenario: Scenario, earlier: seq<(string, CompiledStep)>, stepById: Dict<CompiledStep>)
    returns (compiledSteps: seq<CompiledStep>, index: Dict<CompiledStep>)
    requires stepById == FromItems(earlier)
    ensures compiledSteps == CompileSteps(scenario)
    ensures index == FromItems(earlier + CompiledItemsOf(scenario))
  {
    hide CompileStep, FromItems, Put;
    compiledSteps, index := [], stepById;
    var items := CompiledItemsOf(scenario);
    assert earlier + items[..0] == earlier;
    for k := 0 to |scenario.steps|
      invariant compiledSteps == CompileSteps(scenario)[..k]
      invariant index == FromItems(earlier + items[..k])
    {
      var step := scenario.steps[k];
      var compiledStep := CompileStep(step, scenario.id);
      assert earlier + items[..k + 1] == (earlier + items[..k]) + [(step.id, compiledStep)];
      FromItemsPut(earlier + items[..k], step.id, compiledStep);
      compiledSteps := compiledSteps + [compiledStep];
      index := Put(index, step.id, compiledStep);
    }
    assert items[..|items|] == items;
  }

  method IndexOwners(compiled: CompiledScenario, earlier: seq<(string, CompiledScenario)>,
                     owners: Dict<CompiledScenario>)
    returns (index: Dict<CompiledScenario>)
    requires owners == FromItems(earlier)
    requires compiled == CompileScenario(compiled.scenario)
    ensures index == FromItems(earlier + OwnerItemsOf(compiled.scenario))
  {
    index := owners;
    var items := OwnerItemsOf(compiled.scenario);
    assert earlier + items[..0] == earlier;
    for k := 0 to |compiled.steps|
      invariant index == FromItems(earlier + items[..k])
    {
      var id := compiled.steps[k].step.id;
      assert earlier + items[..k + 1] == (earlier + items[..k]) + [(id, compiled)];
      FromItemsPut(earlier + items[..k], id, compiled);
      index := Put(index, id, compiled);
    }
    assert items[..|items|] == items;
  }

  method Compile(doc: Document) returns (c: Compiled)
    ensures c == CompiledOf(doc)
  {
    hide CompileScenario, CompileSteps, CompiledItemsOf, OwnerItemsOf, Put, FromItems, CompiledItems, OwnerItems,
         CompiledScenarioItems, Payloads;
    var scenarios := doc.scenarios;
    var compiledScenarios: seq<CompiledScenario> := [];
    var stepById: Dict<CompiledStep> := Empty();
    var scenarioById: Dict<CompiledScenario> := Empty();
    var scenarioByStepId: Dict<CompiledScenario> := Empty();
    NothingCompiled(scenarios);
    for i := 0 to |scenarios|
      invariant compiledScenarios == Payloads(CompiledScenarioItems(scenarios[..i]))
      invariant stepById == FromItems(CompiledItems(scenarios[..i]))
      invariant scenarioById == FromItems(CompiledScenarioItems(scenarios[..i]))
      invariant scenarioByStepId == FromItems(OwnerItems(scenarios[..i]))
    {
      var scenario := scenarios[i];
      OneMoreScenario(scenarios, i);
      var compiledSteps, index := CompileScenarioSteps(scenario, CompiledItems(scenarios[..i]), stepById);
      stepById := index;
      var compiledScenario := CompiledScenario(scenario, compiledSteps);
      CompiledScenarioIs(scenario, compiledSteps);
      compiledScenarios := compiledScenarios + [compiledScenario];
      scenarioById := Put(scenarioById, scenario.id, compiledScenario);
      scenarioByStepId := IndexOwners(compiledScenario, OwnerItems(scenarios[..i]), scenarioByStepId);
    }
    assert scenarios[..|scenarios|] == scenarios;
    FromItemsWellFormed(CompiledItems(scenarios));
    c := Compiled(doc, compiledScenarios, Values(stepById), scenarioById, stepById, scenarioByStepId);
  }

  lemma NothingCompiled(scenarios: seq<Scenario>)
    ensures Payloads(CompiledScenarioItems(scenarios[..0])) == []
    ensures FromItems(CompiledItems(scenarios[..0])) == Empty()
    ensures FromItems(CompiledScenarioItems(scenarios[..0])) == Empty()
    ensures FromItems(OwnerItems(scenarios[..0])) == Empty()
  {
    hide CompileScenario;
  }

  /** What one more scenario adds to the items. */
  lemma OneMoreScenario(scenarios: seq<Scenario>, i: nat)
    requires i < |scenarios|
    ensures var before, scenario := scenarios[..i], scenarios[i];
            && CompiledItems(scenarios[..i + 1]) == CompiledItems(before) + CompiledItemsOf(scenario)
            && OwnerItems(scenarios[..i + 1]) == OwnerItems(before) + OwnerItemsOf(scenario)
            && Payloads(CompiledScenarioItems(scenarios[..i + 1])) ==
               Payloads(CompiledScenarioItems(before)) + [CompileScenario(scenario)]
            && FromItems(CompiledScenarioItems(scenarios[..i + 1])) ==
               Put(FromItems(CompiledScenarioItems(before)), scenario.id, CompileScenario(scenario))
  {
    hide CompileScenario, CompiledItemsOf, OwnerItemsOf, Put, FromItems;
    var before, scenario := scenarios[..i], scenarios[i];
    CompiledItemsUnfold(scenarios[..i + 1]);
    assert scenarios[..i + 1][..i] == before && scenarios[..i + 1][i] == scenario;
    assert CompiledScenarioItems(scenarios[..i + 1]) ==
           CompiledScenarioItems(before) + [(scenario.id, CompileScenario(scenario))];
    FromItemsPut(CompiledScenarioItems(before), scenario.id, CompileScenario(scenario));
  }

  lemma CompiledScenarioIs(scenario: Scenario, steps: seq<CompiledStep>)
    requires steps == CompileSteps(scenario)
    ensures CompiledScenario(scenario, steps) == CompileScenario(scenario)
  {
  }

  // ----- the indexes refine the scans -----

  lemma {:induction false} FindConcat<T>(a: seq<(string, T)>, b: seq<(string, T)>, key: string)
    ensures Find(a + b, key) == if Find(a, key).Some? then Find(a, key) else Find(b, key)
  {
    if a == [] {
      assert a + b == b;
    } else {
      assert (a + b)[1..] == a[1..] + b;
      FindConcat(a[1..], b, key);
    }
  }

  lemma {:induction false} OwnerOfSnoc(scenarios: seq<Scenario>, id: string)
    requires scenarios != []
    ensures var init := scenarios[..|scenarios| - 1];
            var last := scenarios[|scenarios| - 1];
            OwnerOf(scenarios, id) ==
            if OwnerOf(init, id).Some? then OwnerOf(init, id) else if HasStep(last, id) then Some(last) else None
  {
    if |scenarios| > 1 {
      var tail := scenarios[1..];
      OwnerOfSnoc(tail, id);
      assert scenarios[..|scenarios| - 1][1..] == tail[..|tail| - 1];
    }
  }

  /** Scanning the inserted items of one scenario. */
  lemma FindInScenario(scenario: Scenario, id: string)
    ensures Find(CompiledItemsOf(scenario), id).Some? == Find(StepItems(scenario.steps), id).Some? ==
            HasStep(scenario, id)
    ensures HasStep(scenario, id) ==>
              && Find(CompiledItemsOf(scenario), id) ==
                 Some(CompileStep(Find(StepItems(scenario.steps), id).value, scenario.id))
              && Find(OwnerItemsOf(scenario), id) == Some(CompileScenario(scenario))
    ensures !HasStep(scenario, id) ==> Find(OwnerItemsOf(scenario), id).None?
  {
    var items, compiled, owners := StepItems(scenario.steps), CompiledItemsOf(scenario), OwnerItemsOf(scenario);
    FindNone(items, id);
    FindNone(compiled, id);
    FindNone(owners, id);
    hide CompileStep, CompileScenario, Find;
    if i :| 0 <= i < |scenario.steps| && scenario.steps[i].id == id {
      assert items[i].0 == id && compiled[i].0 == id && owners[i].0 == id;
      FirstWithKey(items, id);
      var k :| 0 <= k < |items| && items[k].0 == id && forall j :: 0 <= j < k ==> items[j].0 != id;
      assert forall j :: 0 <= j < |items| ==> items[j].0 == compiled[j].0 == owners[j].0;
      FindIsFirst(items, k);
      FindIsFirst(compiled, k);
      FindIsFirst(owners, k);
    }
  }

  lemma StepItemsConcat(a: seq<Step>, b: seq<Step>)
    ensures StepItems(a + b) == StepItems(a) + StepItems(b)
  {
  }

  /** Scanning what the compiler inserts finds the compiled form of what scanning the document finds. */
  lemma {:induction false} FindCompiled(scenarios: seq<Scenario>, id: string)
    ensures Find(StepItems(StepsOf(scenarios)), id).Some? == OwnerOf(scenarios, id).Some?
    ensures Find(CompiledItems(scenarios), id) ==
            match OwnerOf(scenarios, id)
            case None => None
            case Some(owner) => Some(CompileStep(Find(StepItems(StepsOf(scenarios)), id).value, owner.id))
    ensures Find(OwnerItems(scenarios), id) ==
            match OwnerOf(scenarios, id)
            case None => None
            case Some(owner) => Some(CompileScenario(owner))
  {
    if scenarios != [] {
      var init, last := scenarios[..|scenarios| - 1], scenarios[|scenarios| - 1];
      FindCompiled(init, id);
      StepsOfSnoc(scenarios);
      OwnerOfSnoc(scenarios, id);
      FindInScenario(last, id);
      StepItemsConcat(StepsOf(init), last.steps);
      assert CompiledItems(scenarios) == CompiledItems(init) + CompiledItemsOf(last);
      assert OwnerItems(scenarios) == OwnerItems(init) + OwnerItemsOf(last);
      hide CompileStep, CompileScenario, CompiledItems, OwnerItems, OwnerOf, StepsOf;
      hide CompiledItemsOf, OwnerItemsOf, StepItems, HasStep, Find;
      FindConcat(StepItems(StepsOf(init)), StepItems(last.steps), id);
      FindConcat(CompiledItems(init), CompiledItemsOf(last), id);
      FindConcat(OwnerItems(init), OwnerItemsOf(last), id);
    }
  }

  lemma CompiledItemsUnfold(scenarios: seq<Scenario>)
    requires scenarios != []
    ensures var init := scenarios[..|scenarios| - 1];
            var last := scenarios[|scenarios| - 1];
            && CompiledItems(scenarios) == CompiledItems(init) + CompiledItemsOf(last)
            && OwnerItems(scenarios) == OwnerItems(init) + OwnerItemsOf(last)
  {
    hide CompiledItemsOf, OwnerItemsOf;
  }

  lemma ScenarioItemsFollow(scenario: Scenario)
    ensures |CompiledItemsOf(scenario)| == |OwnerItemsOf(scenario)| == |scenario.steps|
    ensures forall i :: 0 <= i < |scenario.steps| ==>
              && CompiledItemsOf(scenario)[i].0 == scenario.steps[i].id
              && CompiledItemsOf(scenario)[i].1.step == scenario.steps[i]
              && OwnerItemsOf(scenario)[i].0 == scenario.steps[i].id
  {
    hide CompileScenario;
  }

  /** Item by item, the compiler inserts the document's steps in document order. */
  lemma {:induction false} CompiledItemsFollow(scenarios: seq<Scenario>)
    ensures |CompiledItems(scenarios)| == |OwnerItems(scenarios)| == |StepsOf(scenarios)|
    ensures forall i :: 0 <= i < |StepsOf(scenarios)| ==>
              && CompiledItems(scenarios)[i].0 == StepsOf(scenarios)[i].id
              && CompiledItems(scenarios)[i].1.step == StepsOf(scenarios)[i]
              && OwnerItems(scenarios)[i].0 == StepsOf(scenarios)[i].id
  {
    if scenarios != [] {
      CompiledItemsFollow(scenarios[..|scenarios| - 1]);
      StepsOfSnoc(scenarios);
      CompiledItemsUnfold(scenarios);
      ScenarioItemsFollow(scenarios[|scenarios| - 1]);
      hide CompiledItems, OwnerItems, StepsOf, CompiledItemsOf, OwnerItemsOf;
    }
  }

  lemma CompiledItemsDistinct(doc: Document)
    requires Constructed(doc)
    ensures DistinctItems(CompiledItems(doc.scenarios))
    ensures DistinctItems(OwnerItems(doc.scenarios))
    ensures DistinctItems(CompiledScenarioItems(doc.scenarios))
  {
    ConstructedIds(doc);
    CompiledItemsFollow(doc.scenarios);
    var ids, scenarioIds := IdsOf(Steps(doc)), ScenarioIdsOf(doc.scenarios);
    hide CompiledItems, OwnerItems, StepsOf, CompileScenario, Constructed;
    assert forall i :: 0 <= i < |ids| ==> ids[i] == CompiledItems(doc.scenarios)[i].0 == OwnerItems(doc.scenarios)[i].0;
    assert forall i :: 0 <= i < |scenarioIds| ==> scenarioIds[i] == CompiledScenarioItems(doc.scenarios)[i].0;
  }

  /** `step_by_id` on the compiled document is the scan's step, compiled under its owner. */
  lemma StepIndexRefines(doc: Document, id: string)
    requires Constructed(doc)
    ensures Lookup(CompiledOf(doc).stepById, id) ==
            match (StepById(doc, id), ScenarioForStepId(doc, id))
            case (Some(step), Some(owner)) => Some(CompileStep(step, owner.id))
            case _ => None
    ensures StepById(doc, id).Some? == ScenarioForStepId(doc, id).Some?
  {
    CompiledItemsDistinct(doc);
    IndexRefinesScan(CompiledItems(doc.scenarios), id);
    FindCompiled(doc.scenarios, id);
  }

  /** `scenario_for_step_id` on the compiled document is the scan's scenario, compiled. */
  lemma OwnerIndexRefines(doc: Document, id: string)
    requires Constructed(doc)
    ensures Lookup(CompiledOf(doc).scenarioByStepId, id) ==
            match ScenarioForStepId(doc, id)
            case None => None
            case Some(scenario) => Some(CompileScenario(scenario))
  {
    CompiledItemsDistinct(doc);
    IndexRefinesScan(OwnerItems(doc.scenarios), id);
    FindCompiled(doc.scenarios, id);
  }

  lemma {:induction false} FindCompiledScenario(scenarios: seq<Scenario>, id: string)
    ensures Find(CompiledScenarioItems(scenarios), id) ==
            match Find(ScenarioItems(scenarios), id)
            case None => None
            case Some(scenario) => Some(CompileScenario(scenario))
  {
    if scenarios != [] {
      assert CompiledScenarioItems(scenarios)[1..] == CompiledScenarioItems(scenarios[1..]);
      assert ScenarioItems(scenarios)[1..] == ScenarioItems(scenarios[1..]);
      FindCompiledScenario(scenarios[1..], id);
    }
  }

  /** `scenario_by_id` on the compiled document is the scan's scenario, compiled. */
  lemma ScenarioIndexRefines(doc: Document, id: string)
    requires Constructed(doc)
    ensures Lookup(CompiledOf(doc).scenarioById, id) ==
            match ScenarioById(doc, id)
            case None => None
            case Some(scenario) => Some(CompileScenario(scenario))
  {
    CompiledItemsDistinct(doc);
    IndexRefinesScan(CompiledScenarioItems(doc.scenarios), id);
    FindCompiledScenario(doc.scenarios, id);
  }

  /** The compiled steps are the document's steps, in document order. */
  lemma CompiledStepsInOrder(doc: Document)
    requires Constructed(doc)
    ensures |CompiledOf(doc).steps| == |Steps(doc)|
    ensures forall i :: 0 <= i < |Steps(doc)| ==> CompiledOf(doc).steps[i].step == Steps(doc)[i]
  {
    CompiledItemsDistinct(doc);
    ValuesInOrder(CompiledItems(doc.scenarios));
    CompiledItemsFollow(doc.scenarios);
  }

  /** The compiled scenarios are the document's, in its order, each with its own steps under its id. */
  lemma CompiledScenariosInOrder(doc: Document)
    ensures CompiledOf(doc).document == doc && |CompiledOf(doc).scenarios| == |doc.scenarios|
    ensures forall i :: 0 <= i < |doc.scenarios| ==>
              var compiled := CompiledOf(doc).scenarios[i];
              && compiled.scenario == doc.scenarios[i] && |compiled.steps| == |doc.scenarios[i].steps|
              && forall k :: 0 <= k < |compiled.steps| ==>
                   compiled.steps[k].step == doc.scenarios[i].steps[k] &&
                   compiled.steps[k].scenarioId == doc.scenarios[i].id
  {
  }

  /**
   With a repeated step id the index keeps the last step while the scan finds the first, so they agree exactly
   when those two are equal. Such a document never passes construction.
   */
  lemma DuplicateStepIdsDiverge(doc: Document, first: nat, last: nat)
    requires first < last < |CompiledItems(doc.scenarios)|
    requires CompiledItems(doc.scenarios)[first].0 == CompiledItems(doc.scenarios)[last].0
    requires forall j :: 0 <= j < first ==> CompiledItems(doc.scenarios)[j].0 != CompiledItems(doc.scenarios)[first].0
    requires forall j :: last < j < |CompiledItems(doc.scenarios)| ==>
                           CompiledItems(doc.scenarios)[j].0 != CompiledItems(doc.scenarios)[last].0
    ensures !Constructed(doc)
    ensures var items := CompiledItems(doc.scenarios);
            var id := items[first].0;
            && StepById(doc, id) == Some(items[first].1.step)
            && Lookup(CompiledOf(doc).stepById, id) == Some(items[last].1)
            && (Lookup(CompiledOf(doc).stepById, id).value.step == StepById(doc, id).value <==>
                items[first].1.step == items[last].1.step)
  {
    var items := CompiledItems(doc.scenarios);
    if Constructed(doc) {
      CompiledItemsDistinct(doc);
    }
    FromItemsIsLast(items, last);
    FindIsFirst(items, first);
    FindCompiled(doc.scenarios, items[first].0);
  }

  // ----- runtime entries -----

  datatype CapabilityFlags = CapabilityFlags(collectsMissingDetails: bool, usesTooling: bool, handsOff: bool,
                                             completes: bool)

  datatype RuntimeEntry = RuntimeEntry(
    currentStepId: string,
    currentScenarioId: string,
    pendingExecution: bool,
    activeRepair: bool,
    flags: CapabilityFlags,
    missingFacts: seq<string>,
    availableToolRefs: seq<string>,
    transitionTargetIds: seq<string>,
    scriptedSay: Option<string>,
    workloadClass: WorkloadClass,
    executionIsolation: ExecutionIsolation)

  /** `step_capability_flags` of an authored step. */
  function StepCapabilityFlags(step: Step): CapabilityFlags {
    CapabilityFlags(step.factRequirements != [], UsesTooling(step), step.handoff.Some?, step.completion.Some?)
  }

  function MissingFacts(names: seq<string>, facts: set<string>): seq<string> {
    if names == [] then []
    else
      var last := names[|names| - 1];
      MissingFacts(names[..|names| - 1], facts) + (if last in facts then [] else [last])
  }

  /** Either form of a document is accepted; compiling a compiled document returns it. */
  datatype AnyDocument = Authored(doc: Document) | AlreadyCompiled(compiled: Compiled)

  function CompileAny(any: AnyDocument): Compiled {
    match any
    case Authored(doc) => CompiledOf(doc)
    case AlreadyCompiled(compiled) => compiled
  }

  /** `build_step_runtime_entry`; None is the KeyError of an unknown step. */
  function BuildRuntimeEntry(any: AnyDocument, id: string, facts: set<string>, pendingAction: bool,
                             pendingPermission: bool, activeRepair: bool): Option<RuntimeEntry>
  {
    var compiled := CompileAny(any);
    match Lookup(compiled.stepById, id)
    case None => None
    case Some(step) =>
      match Lookup(compiled.scenarioByStepId, id)
      case None => None
      case Some(scenario) =>
        var missing := MissingFacts(step.factRequirementNames, facts);
        Some(RuntimeEntry(
               step.step.id, scenario.scenario.id, pendingPermission || pendingAction, activeRepair,
               CapabilityFlags(missing != [], step.usesTooling, step.handsOff, step.completes),
               missing, step.availableToolRefs, step.transitionTargetIds, step.scriptedSay,
               step.workloadClass, step.executionIsolation))
  }

  /**
   The entry as one reads it off the authored step, by scanning; details are collected only while a fact is
   missing.
   */
  function EntryByScan(doc: Document, id: string, facts: set<string>, pendingAction: bool,
                       pendingPermission: bool, activeRepair: bool): Option<RuntimeEntry>
  {
    match (StepById(doc, id), ScenarioForStepId(doc, id))
    case (Some(step), Some(owner)) =>
      var collects := exists r :: r in step.factRequirements && r.name !in facts;
      Some(RuntimeEntry(
             id, owner.id, pendingPermission || pendingAction, activeRepair,
             StepCapabilityFlags(step).(collectsMissingDetails := collects),
             MissingFacts(RequirementNames(step), facts), AvailableToolRefs(step.toolPolicy),
             TransitionTargets(step), ScriptedSay(step), step.workloadClass, step.executionIsolation))
    case _ => None
  }

  /** `step_capability_flags` of a compiled step: the flags it carries. */
  function CompiledFlags(step: CompiledStep): CapabilityFlags {
    CapabilityFlags(step.collectsMissingDetails, step.usesTooling, step.handsOff, step.completes)
  }

  /** The flags of a step do not depend on which form of the document it was looked up in. */
  lemma CapabilityFlagsAgree(doc: Document, id: string)
    requires Constructed(doc)
    ensures match (Lookup(CompiledOf(doc).stepById, id), StepById(doc, id))
            case (Some(compiled), Some(step)) => CompiledFlags(compiled) == StepCapabilityFlags(step)
            case (None, None) => true
            case _ => false
  {
    hide CompiledOf, StepById, ScenarioForStepId, Constructed;
    StepIndexRefines(doc, id);
  }

  /** Built from either form of a constructed document, the entry is the one read off the authored step. */
  lemma RuntimeEntryRefinesScan(doc: Document, any: AnyDocument, id: string, facts: set<string>, pendingAction: bool,
                                pendingPermission: bool, activeRepair: bool)
    requires Constructed(doc)
    requires any == Authored(doc) || any == AlreadyCompiled(CompiledOf(doc))
    ensures BuildRuntimeEntry(any, id, facts, pendingAction, pendingPermission, activeRepair) ==
            EntryByScan(doc, id, facts, pendingAction, pendingPermission, activeRepair)
  {
    StepIndexRefines(doc, id);
    OwnerIndexRefines(doc, id);
    StepByIdKnown(doc, id);
    hide CompiledOf, StepById, ScenarioForStepId, MissingFacts, Constructed;
    var found := StepById(doc, id);
    if found.Some? {
      CollectsIffMissing(found.value, facts);
    }
  }

  lemma CollectsIffMissing(step: Step, facts: set<string>)
    ensures MissingFacts(RequirementNames(step), facts) != [] <==>
            exists r :: r in step.factRequirements && r.name !in facts
  {
    MissingFactsIff(RequirementNames(step), facts);
    if r :| r in step.factRequirements && r.name !in facts {
      var i :| 0 <= i < |step.factRequirements| && step.factRequirements[i] == r;
      assert RequirementNames(step)[i] == r.name;
    }
    if name :| name in RequirementNames(step) && name !in facts {
      var i :| 0 <= i < |RequirementNames(step)| && RequirementNames(step)[i] == name;
      assert step.factRequirements[i] in step.factRequirements;
    }
  }

  lemma {:induction false} MissingFactsIff(names: seq<string>, facts: set<string>)
    ensures MissingFacts(names, facts) != [] <==> exists name :: name in names && name !in facts
  {
    if names != [] {
      MissingFactsIff(names[..|names| - 1], facts);
    }
  }
}

/**
 Authored agent documents: scenarios of steps joined by transitions and scenario routes, the
 validators that run when a document is built, and the id lookups over it.
 */
module AgentDocument {
  import opened Basics
  import opened PythonDict

  /** Authored content the graph logic never looks into, kept as its JSON text. */
  datatype Content = Content(json: string)

  datatype Condition =
    | Outcome(event: string, description: string)
    | Otherwise
    | ToolOutcome(toolRef: Option<string>, outcome: string)
    | OtherCondition(content: Content)

  datatype Transition = Transition(id: string, when: Condition, toStepId: string, caption: Option<string>,
                                   priority: int)

  datatype ToolMode = Allowed | Blocked | Required | Optional

  datatype ToolBinding = ToolBinding(ref: string, mode: ToolMode, settings: Content)

  datatype FactRequirement = FactRequirement(name: string, purpose: Content)

  datatype WorkloadClass = Interactive | Deferred

  datatype ExecutionIsolation = Inline | Subprocess

  datatype Step = Step(
    id: string,
    name: string,
    transitions: seq<Transition>,
    description: Option<string>,
    say: Option<string>,
    guards: seq<Content>,
    factRequirements: seq<FactRequirement>,
    toolPolicy: seq<ToolBinding>,
    actionConfig: Option<Content>,
    responsePolicy: Content,
    workloadClass: WorkloadClass,
    executionIsolation: ExecutionIsolation,
    handoff: Option<Content>,
    completion: Option<Content>,
    confidenceThreshold: Option<real>,
    classifierUsesFacts: Option<seq<string>>)

  datatype Scenario = Scenario(id: string, startStepId: string, steps: seq<Step>, order: int,
                               entryChannels: seq<string>)

  datatype ScenarioRoute = ScenarioRoute(id: string, fromScenarioId: string, toScenarioId: string, priority: int)

  datatype FactDef = FactDef(name: string, workflowScope: bool, definition: Content)

  datatype Document = Document(
    startScenarioId: string,
    scenarios: seq<Scenario>,
    scenarioRoutes: seq<ScenarioRoute>,
    factSchema: seq<FactDef>)

  // ----- per-step routing invariants -----

  datatype TransitionError =
    | DuplicateTransitionId(at: nat)
    | DuplicateOutcomeEvent(at: nat)
    | SecondOtherwise(at: nat)
    | AmbiguousTool(at: nat)
    | UnknownTool(at: nat)

  function ToolRefs(step: Step): set<string> {
    set b | b in step.toolPolicy :: b.ref
  }

  /** What is wrong with transition `i`, given the ones before it. */
  function Violation(step: Step, i: nat): Option<TransitionError>
    requires i < |step.transitions|
  {
    var t := step.transitions[i];
    if exists j :: 0 <= j < i && step.transitions[j].id == t.id then Some(DuplicateTransitionId(i))
    else
      match t.when
      case Outcome(event, _) =>
        if exists j :: 0 <= j < i && step.transitions[j].when.Outcome? && step.transitions[j].when.event == event
        then Some(DuplicateOutcomeEvent(i)) else None
      case Otherwise =>
        if exists j :: 0 <= j < i && step.transitions[j].when.Otherwise? then Some(SecondOtherwise(i)) else None
      case ToolOutcome(toolRef, _) =>
        if toolRef.None? && |ToolRefs(step)| > 1 then Some(AmbiguousTool(i))
        else if toolRef.Some? && toolRef.value !in ToolRefs(step) then Some(UnknownTool(i))
        else None
      case OtherCondition(_) => None
  }

  method ValidateTransitions(step: Step) returns (error: Option<TransitionError>)
    ensures error.None? <==> forall i :: 0 <= i < |step.transitions| ==> Violation(step, i).None?
    ensures error.Some? ==>
              && error.value.at < |step.transitions|
              && error == Violation(step, error.value.at) && Justified(step, error.value)
              && forall i :: 0 <= i < error.value.at ==> Violation(step, i).None?
  {
    hide Justified;
    var seenIds: set<string> := {};
    var seenOutcomeEvents: set<string> := {};
    var otherwiseCount := 0;
    var toolRefs := ToolRefs(step);
    for i := 0 to |step.transitions|
      invariant forall k :: 0 <= k < i ==> Violation(step, k).None?
      invariant forall id :: id in seenIds <==> exists j :: 0 <= j < i && step.transitions[j].id == id
      invariant forall e :: e in seenOutcomeEvents <==>
                              exists j :: 0 <= j < i && step.transitions[j].when.Outcome? &&
                                step.transitions[j].when.event == e
      invariant otherwiseCount == 0 <==> !exists j :: 0 <= j < i && step.transitions[j].when.Otherwise?
      invariant otherwiseCount >= 0
    {
      var transition := step.transitions[i];
      if transition.id in seenIds {
        assert Violation(step, i).Some?;
        ViolationJustified(step, i);
        return Some(DuplicateTransitionId(i));
      }
      seenIds := seenIds + {transition.id};
      match transition.when
      case Outcome(event, _) =>
        if event in seenOutcomeEvents {
          assert Violation(step, i).Some?;
          ViolationJustified(step, i);
          return Some(DuplicateOutcomeEvent(i));
        }
        seenOutcomeEvents := seenOutcomeEvents + {event};
      case Otherwise =>
        otherwiseCount := otherwiseCount + 1;
        if otherwiseCount > 1 {
          assert Violation(step, i).Some?;
          ViolationJustified(step, i);
          return Some(SecondOtherwise(i));
        }
      case ToolOutcome(toolRef, _) =>
        if toolRef.None? && |toolRefs| > 1 {
          assert Violation(step, i).Some?;
          ViolationJustified(step, i);
          return Some(AmbiguousTool(i));
        }
        if toolRef.Some? && toolRef.value !in toolRefs {
          assert Violation(step, i).Some?;
          ViolationJustified(step, i);
          return Some(UnknownTool(i));
        }
      case OtherCondition(_) =>
    }
    return None;
  }

  /** What each error says about the transition it names. */
  ghost predicate Justified(step: Step, e: TransitionError) {
    && 0 <= e.at < |step.transitions|
    && var t := step.transitions[e.at];
       match e
       case DuplicateTransitionId(_) => exists j :: 0 <= j < e.at && step.transitions[j].id == t.id
       case DuplicateOutcomeEvent(_) =>
         && t.when.Outcome?
         && (exists j :: 0 <= j < e.at && step.transitions[j].when.Outcome? &&
               step.transitions[j].when.event == t.when.event)
       case SecondOtherwise(_) =>
         t.when.Otherwise? && exists j :: 0 <= j < e.at && step.transitions[j].when.Otherwise?
       case AmbiguousTool(_) =>
         t.when.ToolOutcome? && t.when.toolRef == None &&
         exists i, j :: 0 <= i < j < |step.toolPolicy| && step.toolPolicy[i].ref != step.toolPolicy[j].ref
       case UnknownTool(_) =>
         t.when.ToolOutcome? && t.when.toolRef.Some? &&
         forall j :: 0 <= j < |step.toolPolicy| ==> step.toolPolicy[j].ref != t.when.toolRef.value
  }

  /** An error that the validator raises is justified. */
  lemma ViolationJustified(step: Step, i: nat)
    requires i < |step.transitions| && Violation(step, i).Some?
    ensures Violation(step, i).value.at == i && Justified(step, Violation(step, i).value)
  {
    var when := step.transitions[i].when;
    if when.ToolOutcome? {
      ToolNamedIff(step, when.toolRef);
    }
    hide ToolRefs;
  }

  predicate RoutingAccepted(step: Step) {
    forall i :: 0 <= i < |step.transitions| ==> Violation(step, i).None?
  }

  /** Some transition names a tool, or names none where that is unambiguous. */
  predicate ToolNamed(step: Step, toolRef: Option<string>) {
    match toolRef
    case Some(ref) => exists b :: b in step.toolPolicy && b.ref == ref
    case None => forall i, j :: 0 <= i < j < |step.toolPolicy| ==> step.toolPolicy[i].ref == step.toolPolicy[j].ref
  }

  /** The invariants the validator is there to enforce, each about the step as a whole. */
  predicate RoutingWellFormed(step: Step) {
    var ts := step.transitions;
    && (forall i, j :: 0 <= i < j < |ts| ==> ts[i].id != ts[j].id)
    && (forall i, j :: 0 <= i < j < |ts| && ts[i].when.Outcome? && ts[j].when.Outcome? ==>
                         ts[i].when.event != ts[j].when.event)
    && (forall i, j :: 0 <= i < j < |ts| ==> !(ts[i].when.Otherwise? && ts[j].when.Otherwise?))
    && (forall i :: 0 <= i < |ts| && ts[i].when.ToolOutcome? ==> ToolNamed(step, ts[i].when.toolRef))
  }

  lemma AtMostOne<T>(s: set<T>)
    ensures |s| <= 1 <==> forall x, y :: x in s && y in s ==> x == y
  {
    if x, y :| x in s && y in s && x != y {
      assert {x, y} <= s;
      SubsetSize({x, y}, s);
      assert |{x, y}| == 2;
    } else if s != {} {
      var x :| x in s;
      assert s == {x};
    }
  }

  lemma ToolNamedIff(step: Step, toolRef: Option<string>)
    ensures ToolNamed(step, toolRef) <==>
            if toolRef.None? then |ToolRefs(step)| <= 1 else toolRef.value in ToolRefs(step)
  {
    if toolRef.None? {
      AtMostOne(ToolRefs(step));
      assert forall i :: 0 <= i < |step.toolPolicy| ==> step.toolPolicy[i].ref in ToolRefs(step);
      if ToolNamed(step, toolRef) {
        forall x, y | x in ToolRefs(step) && y in ToolRefs(step)
          ensures x == y
        {
          var a :| a in step.toolPolicy && a.ref == x;
          var b :| b in step.toolPolicy && b.ref == y;
          var i :| 0 <= i < |step.toolPolicy| && step.toolPolicy[i] == a;
          var j :| 0 <= j < |step.toolPolicy| && step.toolPolicy[j] == b;
        }
      }
    }
  }

  /** The validator accepts a step exactly when its routing is well formed. */
  lemma RoutingAcceptedIff(step: Step)
    ensures RoutingAccepted(step) <==> RoutingWellFormed(step)
  {
    var ts := step.transitions;
    forall i | 0 <= i < |ts|
      ensures ts[i].when.ToolOutcome? ==>
                (ToolNamed(step, ts[i].when.toolRef) <==>
                 if ts[i].when.toolRef.None? then |ToolRefs(step)| <= 1 else ts[i].when.toolRef.value in ToolRefs(step))
    {
      if ts[i].when.ToolOutcome? {
        ToolNamedIff(step, ts[i].when.toolRef);
      }
    }
    hide ToolNamed, ToolRefs;
    if RoutingAccepted(step) {
      forall i, j | 0 <= i < j < |ts|
        ensures ts[i].id != ts[j].id
        ensures ts[i].when.Outcome? && ts[j].when.Outcome? ==> ts[i].when.event != ts[j].when.event
        ensures !(ts[i].when.Otherwise? && ts[j].when.Otherwise?)
      {
        assert Violation(step, j).None?;
      }
      forall i | 0 <= i < |ts| && ts[i].when.ToolOutcome?
        ensures ToolNamed(step, ts[i].when.toolRef)
      {
        assert Violation(step, i).None?;
      }
    }
  }

  // ----- the document validators -----

  /** `Step.validate_shape` */
  predicate StepAccepted(step: Step) {
    && !(step.completion.Some? && step.handoff.Some?)
    && !(step.completion.Some? && step.actionConfig.Some?)
    && !(step.handoff.Some? && step.actionConfig.Some?)
    && RoutingAccepted(step)
  }

  /** `Scenario.validate_start_step`, which also refuses a scenario with no steps. */
  predicate ScenarioAccepted(scenario: Scenario) {
    && (exists i :: 0 <= i < |scenario.steps| && scenario.steps[i].id == scenario.startStepId)
    && forall i :: 0 <= i < |scenario.steps| ==> StepAccepted(scenario.steps[i])
  }

  function StepsOf(scenarios: seq<Scenario>): seq<Step> {
    if scenarios == [] then [] else scenarios[0].steps + StepsOf(scenarios[1..])
  }

  /** `document.steps` */
  function Steps(doc: Document): seq<Step> {
    StepsOf(doc.scenarios)
  }

  function IdsOf(steps: seq<Step>): seq<string> {
    seq(|steps|, i requires 0 <= i < |steps| => steps[i].id)
  }

  function StepIds(doc: Document): set<string> {
    ToSet(IdsOf(Steps(doc)))
  }

  function ScenarioIdsOf(scenarios: seq<Scenario>): seq<string> {
    seq(|scenarios|, i requires 0 <= i < |scenarios| => scenarios[i].id)
  }

  function RouteIdsOf(routes: seq<ScenarioRoute>): seq<string> {
    seq(|routes|, i requires 0 <= i < |routes| => routes[i].id)
  }

  datatype DocumentError =
    | DuplicateScenarioIds
    | NoSteps
    | UnknownStartScenario
    | DuplicateStepIds
    | DuplicateRouteIds
    | UnknownTransitionTarget
    | UnknownRouteSource
    | UnknownRouteTarget

  predicate HasDuplicates(ids: seq<string>) {
    |ids| != |ToSet(ids)|
  }

  predicate TargetsKnown(doc: Document) {
    forall i :: 0 <= i < |Steps(doc)| ==>
                  forall k :: 0 <= k < |Steps(doc)[i].transitions| ==>
                    Steps(doc)[i].transitions[k].toStepId in StepIds(doc)
  }

  /** Routes are checked in order, each for its source before its target. */
  function RouteError(routes: seq<ScenarioRoute>, scenarioIds: set<string>): Option<DocumentError> {
    if routes == [] then None
    else if routes[0].fromScenarioId !in scenarioIds then Some(UnknownRouteSource)
    else if routes[0].toScenarioId !in scenarioIds then Some(UnknownRouteTarget)
    else RouteError(routes[1..], scenarioIds)
  }

  /** `AgentDocument.validate_document`: the first error, if any. */
  function ValidateDocument(doc: Document): Option<DocumentError> {
    var scenarioIds := ToSet(ScenarioIdsOf(doc.scenarios));
    if HasDuplicates(ScenarioIdsOf(doc.scenarios)) then Some(DuplicateScenarioIds)
    else if Steps(doc) == [] then Some(NoSteps)
    else if doc.startScenarioId !in scenarioIds then Some(UnknownStartScenario)
    else if HasDuplicates(IdsOf(Steps(doc))) then Some(DuplicateStepIds)
    else if HasDuplicates(RouteIdsOf(doc.scenarioRoutes)) then Some(DuplicateRouteIds)
    else if !TargetsKnown(doc) then Some(UnknownTransitionTarget)
    else RouteError(doc.scenarioRoutes, scenarioIds)
  }

  /** What each error says about the document. */
  ghost predicate Faulty(doc: Document, e: DocumentError) {
    match e
    case DuplicateScenarioIds =>
      exists i, j :: 0 <= i < j < |doc.scenarios| && doc.scenarios[i].id == doc.scenarios[j].id
    case NoSteps => forall i :: 0 <= i < |doc.scenarios| ==> doc.scenarios[i].steps == []
    case UnknownStartScenario =>
      forall i :: 0 <= i < |doc.scenarios| ==> doc.scenarios[i].id != doc.startScenarioId
    case DuplicateStepIds => exists i, j :: 0 <= i < j < |Steps(doc)| && Steps(doc)[i].id == Steps(doc)[j].id
    case DuplicateRouteIds =>
      exists i, j :: 0 <= i < j < |doc.scenarioRoutes| && doc.scenarioRoutes[i].id == doc.scenarioRoutes[j].id
    case UnknownTransitionTarget =>
      exists n, m :: 0 <= n < |Steps(doc)| && 0 <= m < |Steps(doc)[n].transitions| &&
        forall k :: 0 <= k < |Steps(doc)| ==> Steps(doc)[k].id != Steps(doc)[n].transitions[m].toStepId
    case UnknownRouteSource =>
      exists r :: 0 <= r < |doc.scenarioRoutes| && NoScenario(doc, doc.scenarioRoutes[r].fromScenarioId)
    case UnknownRouteTarget =>
      exists r :: 0 <= r < |doc.scenarioRoutes| && NoScenario(doc, doc.scenarioRoutes[r].toScenarioId)
  }

  ghost predicate NoScenario(doc: Document, id: string) {
    forall i :: 0 <= i < |doc.scenarios| ==> doc.scenarios[i].id != id
  }

  lemma DuplicatesShow(ids: seq<string>)
    ensures HasDuplicates(ids) ==> exists i, j :: 0 <= i < j < |ids| && ids[i] == ids[j]
  {
    DistinctByCount(ids);
  }

  lemma NoScenarioIs(doc: Document, id: string)
    ensures id !in ToSet(ScenarioIdsOf(doc.scenarios)) <==> NoScenario(doc, id)
  {
    forall i | 0 <= i < |doc.scenarios|
      ensures doc.scenarios[i].id == ScenarioIdsOf(doc.scenarios)[i]
    {
    }
  }

  lemma {:induction false} RouteFault(doc: Document, routes: seq<ScenarioRoute>, e: DocumentError)
    requires RouteError(routes, ToSet(ScenarioIdsOf(doc.scenarios))) == Some(e)
    ensures e == UnknownRouteSource ==>
              exists r :: 0 <= r < |routes| && NoScenario(doc, routes[r].fromScenarioId)
    ensures e == UnknownRouteTarget ==>
              exists r :: 0 <= r < |routes| && NoScenario(doc, routes[r].toScenarioId)
    ensures e == UnknownRouteSource || e == UnknownRouteTarget
  {
    NoScenarioIs(doc, routes[0].fromScenarioId);
    NoScenarioIs(doc, routes[0].toScenarioId);
    var ids := ToSet(ScenarioIdsOf(doc.scenarios));
    hide NoScenario, ScenarioIdsOf;
    if routes[0].fromScenarioId in ids && routes[0].toScenarioId in ids {
      var rest := routes[1..];
      RouteFault(doc, rest, e);
      assert forall r :: 0 <= r < |rest| ==> rest[r] == routes[r + 1];
      if r :| 0 <= r < |rest| && NoScenario(doc, rest[r].fromScenarioId) {
        assert NoScenario(doc, routes[r + 1].fromScenarioId);
      }
      if r :| 0 <= r < |rest| && NoScenario(doc, rest[r].toScenarioId) {
        assert NoScenario(doc, routes[r + 1].toScenarioId);
      }
    }
  }

  /** The document passed every validator, so it exists as an object. */
  predicate Constructed(doc: Document) {
    && (forall i :: 0 <= i < |doc.scenarios| ==> ScenarioAccepted(doc.scenarios[i]))
    && ValidateDocument(doc).None?
  }

  /** What a constructed document guarantees its readers. */
  ghost predicate DocumentWellFormed(doc: Document) {
    && Distinct(ScenarioIdsOf(doc.scenarios))
    && Distinct(IdsOf(Steps(doc)))
    && Distinct(RouteIdsOf(doc.scenarioRoutes))
    && (exists i :: 0 <= i < |doc.scenarios| && doc.scenarios[i].id == doc.startScenarioId)
    && Steps(doc) != []
    && TargetsKnown(doc)
    && (forall i :: 0 <= i < |doc.scenarioRoutes| ==>
                      && doc.scenarioRoutes[i].fromScenarioId in ToSet(ScenarioIdsOf(doc.scenarios))
                      && doc.scenarioRoutes[i].toScenarioId in ToSet(ScenarioIdsOf(doc.scenarios)))
  }

  lemma {:induction false} RouteErrorNone(routes: seq<ScenarioRoute>, ids: set<string>)
    ensures RouteError(routes, ids).None? <==>
            forall i :: 0 <= i < |routes| ==> routes[i].fromScenarioId in ids && routes[i].toScenarioId in ids
  {
    if routes != [] {
      RouteErrorNone(routes[1..], ids);
      assert forall i :: 1 <= i < |routes| ==> routes[i] == routes[1..][i - 1];
      assert forall i :: 0 <= i < |routes| - 1 ==> routes[1..][i] == routes[i + 1];
    }
  }

  lemma ValidateDocumentIff(doc: Document)
    ensures ValidateDocument(doc).None? <==> DocumentWellFormed(doc)
  {
    DistinctByCount(ScenarioIdsOf(doc.scenarios));
    DistinctByCount(IdsOf(Steps(doc)));
    DistinctByCount(RouteIdsOf(doc.scenarioRoutes));
    RouteErrorNone(doc.scenarioRoutes, ToSet(ScenarioIdsOf(doc.scenarios)));
    StartKnown(doc.scenarios, doc.startScenarioId);
    hide Distinct, ScenarioIdsOf, IdsOf, RouteIdsOf, Steps, TargetsKnown, RouteError;
  }

  lemma ConstructedIds(doc: Document)
    requires Constructed(doc)
    ensures Distinct(IdsOf(Steps(doc))) && Distinct(ScenarioIdsOf(doc.scenarios)) && TargetsKnown(doc)
  {
    ValidateDocumentIff(doc);
    hide Distinct, IdsOf, Steps, ScenarioIdsOf, TargetsKnown, ValidateDocument, ScenarioAccepted, RouteIdsOf, ToSet;
  }

  lemma StartKnown(scenarios: seq<Scenario>, id: string)
    ensures id in ToSet(ScenarioIdsOf(scenarios)) <==> exists i :: 0 <= i < |scenarios| && scenarios[i].id == id
  {
    var ids := ScenarioIdsOf(scenarios);
    if i :| 0 <= i < |scenarios| && scenarios[i].id == id {
      assert ids[i] == id;
    }
    if id in ToSet(ids) {
      var i :| 0 <= i < |ids| && ids[i] == id;
    }
  }

  lemma IdsHave(steps: seq<Step>, id: string)
    ensures id in ToSet(IdsOf(steps)) <==> exists k :: 0 <= k < |steps| && steps[k].id == id
  {
    if k :| 0 <= k < |steps| && steps[k].id == id {
      assert IdsOf(steps)[k] == id;
    }
  }

  lemma TargetFault(doc: Document)
    requires !TargetsKnown(doc)
    ensures Faulty(doc, UnknownTransitionTarget)
  {
    hide Steps, IdsOf, ToSet;
    var n :| 0 <= n < |Steps(doc)| &&
             exists m :: 0 <= m < |Steps(doc)[n].transitions| && Steps(doc)[n].transitions[m].toStepId !in StepIds(doc);
    var m :| 0 <= m < |Steps(doc)[n].transitions| && Steps(doc)[n].transitions[m].toStepId !in StepIds(doc);
    IdsHave(Steps(doc), Steps(doc)[n].transitions[m].toStepId);
  }

  lemma {:induction false} NoStepsIn(scenarios: seq<Scenario>)
    requires |StepsOf(scenarios)| == 0
    ensures forall i :: 0 <= i < |scenarios| ==> scenarios[i].steps == []
  {
    if scenarios != [] {
      NoStepsIn(scenarios[1..]);
      assert forall i :: 0 < i < |scenarios| ==> scenarios[i] == scenarios[1..][i - 1];
    }
  }

  lemma DuplicateFault(doc: Document)
    ensures HasDuplicates(ScenarioIdsOf(doc.scenarios)) ==> Faulty(doc, DuplicateScenarioIds)
    ensures HasDuplicates(IdsOf(Steps(doc))) ==> Faulty(doc, DuplicateStepIds)
    ensures HasDuplicates(RouteIdsOf(doc.scenarioRoutes)) ==> Faulty(doc, DuplicateRouteIds)
  {
    var ids, stepIds, routeIds := ScenarioIdsOf(doc.scenarios), IdsOf(Steps(doc)), RouteIdsOf(doc.scenarioRoutes);
    DuplicatesShow(ids);
    DuplicatesShow(stepIds);
    DuplicatesShow(routeIds);
    hide HasDuplicates, Steps;
    if i, j :| 0 <= i < j < |ids| && ids[i] == ids[j] {
      assert doc.scenarios[i].id == doc.scenarios[j].id;
    }
    if i, j :| 0 <= i < j < |stepIds| && stepIds[i] == stepIds[j] {
      assert Steps(doc)[i].id == Steps(doc)[j].id;
    }
    if i, j :| 0 <= i < j < |routeIds| && routeIds[i] == routeIds[j] {
      assert doc.scenarioRoutes[i].id == doc.scenarioRoutes[j].id;
    }
  }

  lemma StartFault(doc: Document)
    ensures doc.startScenarioId !in ToSet(ScenarioIdsOf(doc.scenarios)) ==> Faulty(doc, UnknownStartScenario)
    ensures Steps(doc) == [] ==> Faulty(doc, NoSteps)
  {
    StartKnown(doc.scenarios, doc.startScenarioId);
    if Steps(doc) == [] {
      NoStepsIn(doc.scenarios);
    }
  }

  /** The error that a document is refused with is a fault of the document. */
  lemma ErrorJustified(doc: Document)
    ensures ValidateDocument(doc).Some? ==> Faulty(doc, ValidateDocument(doc).value)
  {
    DuplicateFault(doc);
    StartFault(doc);
    var routes := doc.scenarioRoutes;
    if RouteError(routes, ToSet(ScenarioIdsOf(doc.scenarios))).Some? {
      RouteFault(doc, routes, RouteError(routes, ToSet(ScenarioIdsOf(doc.scenarios))).value);
    }
    if !TargetsKnown(doc) {
      TargetFault(doc);
    }
    hide Steps, TargetsKnown, HasDuplicates, ScenarioIdsOf, RouteIdsOf, IdsOf, RouteError, ToSet, NoScenario;
  }

  // ----- lookups -----

  function StepItems(steps: seq<Step>): seq<(string, Step)> {
    seq(|steps|, i requires 0 <= i < |steps| => (steps[i].id, steps[i]))
  }

  function ScenarioItems(scenarios: seq<Scenario>): seq<(string, Scenario)> {
    seq(|scenarios|, i requires 0 <= i < |scenarios| => (scenarios[i].id, scenarios[i]))
  }

  /** None is the KeyError of a missing id. */
  function StepById(doc: Document, id: string): Option<Step> {
    Find(StepItems(Steps(doc)), id)
  }

  function ScenarioById(doc: Document, id: string): Option<Scenario> {
    Find(ScenarioItems(doc.scenarios), id)
  }

  predicate HasStep(scenario: Scenario, id: string) {
    exists i :: 0 <= i < |scenario.steps| && scenario.steps[i].id == id
  }

  function OwnerOf(scenarios: seq<Scenario>, id: string): Option<Scenario> {
    if scenarios == [] then None
    else if HasStep(scenarios[0], id) then Some(scenarios[0])
    else OwnerOf(scenarios[1..], id)
  }

  function ScenarioForStepId(doc: Document, id: string): Option<Scenario> {
    OwnerOf(doc.scenarios, id)
  }

  function StartStepId(doc: Document): Option<string> {
    match ScenarioById(doc, doc.startScenarioId)
    case Some(scenario) => Some(scenario.startStepId)
    case None => None
  }

  /** A lookup succeeds on exactly the ids that occur. */
  lemma StepByIdKnown(doc: Document, id: string)
    ensures StepById(doc, id).Some? <==> id in StepIds(doc)
    ensures StepById(doc, id).Some? ==> StepById(doc, id).value in Steps(doc) && StepById(doc, id).value.id == id
  {
    var items, steps := StepItems(Steps(doc)), Steps(doc);
    FindNone(items, id);
    if id in StepIds(doc) {
      var i :| 0 <= i < |steps| && IdsOf(steps)[i] == id;
      assert items[i].0 == id;
    }
    if HasKey(items, id) {
      FirstWithKey(items, id);
      var i :| 0 <= i < |items| && items[i].0 == id && forall j :: 0 <= j < i ==> items[j].0 != id;
      FindIsFirst(items, i);
      assert IdsOf(steps)[i] == id;
    }
  }

  lemma ScenarioByIdKnown(doc: Document, id: string)
    ensures ScenarioById(doc, id).Some? <==> id in ToSet(ScenarioIdsOf(doc.scenarios))
    ensures ScenarioById(doc, id).Some? ==>
              ScenarioById(doc, id).value in doc.scenarios && ScenarioById(doc, id).value.id == id
  {
    var items := ScenarioItems(doc.scenarios);
    FindNone(items, id);
    StartKnown(doc.scenarios, id);
    if i :| 0 <= i < |doc.scenarios| && doc.scenarios[i].id == id {
      assert items[i].0 == id;
    }
    if HasKey(items, id) {
      FirstWithKey(items, id);
      var i :| 0 <= i < |items| && items[i].0 == id && forall j :: 0 <= j < i ==> items[j].0 != id;
      FindIsFirst(items, i);
    }
  }

  lemma {:induction false} StepsOfSnoc(scenarios: seq<Scenario>)
    requires scenarios != []
    ensures StepsOf(scenarios) == StepsOf(scenarios[..|scenarios| - 1]) + scenarios[|scenarios| - 1].steps
  {
    if |scenarios| > 1 {
      var tail := scenarios[1..];
      StepsOfSnoc(tail);
      assert scenarios[..|scenarios| - 1][1..] == tail[..|tail| - 1];
    }
  }

  lemma {:induction false} StepsOfMember(scenarios: seq<Scenario>, step: Step)
    ensures step in StepsOf(scenarios) <==> exists i :: 0 <= i < |scenarios| && step in scenarios[i].steps
  {
    if scenarios != [] {
      StepsOfMember(scenarios[1..], step);
      if i :| 0 <= i < |scenarios| && step in scenarios[i].steps && i > 0 {
        assert step in scenarios[1..][i - 1].steps;
      }
      if i :| 0 <= i < |scenarios| - 1 && step in scenarios[1..][i].steps {
        assert step in scenarios[i + 1].steps;
      }
    }
  }

  lemma {:induction false} OwnerOfKnown(scenarios: seq<Scenario>, id: string)
    ensures OwnerOf(scenarios, id).Some? <==> exists i :: 0 <= i < |scenarios| && HasStep(scenarios[i], id)
    ensures OwnerOf(scenarios, id).Some? ==>
              OwnerOf(scenarios, id).value in scenarios && HasStep(OwnerOf(scenarios, id).value, id)
  {
    if scenarios != [] && !HasStep(scenarios[0], id) {
      OwnerOfKnown(scenarios[1..], id);
      if i :| 0 <= i < |scenarios| && HasStep(scenarios[i], id) {
        assert HasStep(scenarios[1..][i - 1], id);
      }
      if i :| 0 <= i < |scenarios| - 1 && HasStep(scenarios[1..][i], id) {
        assert HasStep(scenarios[i + 1], id);
      }
    }
  }

  /** A step that exists has an owning scenario. */
  lemma OwnerKnown(doc: Document, id: string)
    ensures ScenarioForStepId(doc, id).Some? <==> id in StepIds(doc)
    ensures ScenarioForStepId(doc, id).Some? ==> ScenarioForStepId(doc, id).value in doc.scenarios
  {
    OwnerOfKnown(doc.scenarios, id);
    var steps := Steps(doc);
    if id in StepIds(doc) {
      var k :| 0 <= k < |steps| && IdsOf(steps)[k] == id;
      StepsOfMember(doc.scenarios, steps[k]);
      var i :| 0 <= i < |doc.scenarios| && steps[k] in doc.scenarios[i].steps;
      assert HasStep(doc.scenarios[i], id);
    }
    if i :| 0 <= i < |doc.scenarios| && HasStep(doc.scenarios[i], id) {
      var k :| 0 <= k < |doc.scenarios[i].steps| && doc.scenarios[i].steps[k].id == id;
      StepsOfMember(doc.scenarios, doc.scenarios[i].steps[k]);
      var n :| 0 <= n < |steps| && steps[n] == doc.scenarios[i].steps[k];
      assert IdsOf(steps)[n] == id;
    }
  }
}

/**
 The publish validator, `validate_agent_document`: the issues it reports, in order. The loops carry
 dictionaries of what they have seen; the specification says what each issue means instead.
 Messages are left out, so an issue carries its codes and ids.
 */
module PublishValidation {
  import opened Basics
  import opened Ordering
  import opened AgentDocument
  import opened Reachability

  datatype Severity = Error | Warning

  datatype Code =
    | StepUnreachable
    | StepTerminalWithTransitions
    | StepNonTerminalWithoutTransition
    | StepFactMissingDefinition
    | StepDuplicateToolBinding
    | TransitionDuplicateId
    | TransitionUnknownTarget
    | FactWorkflowStorageUnavailable
    | RouteDuplicateId
    | RouteUnknownSource
    | RouteUnknownTarget
    | EntryChannelConflict
    | ExitPathMissing

  /** `subject` is the transition, route, fact or tool the issue is about. */
  datatype Issue = Issue(severity: Severity, code: Code, scenarioId: Option<string>, stepId: Option<string>,
                         subject: Option<string>)

  datatype Report = Report(valid: bool, errorCount: nat, warningCount: nat, issues: seq<Issue>)

  /** What the whole document contributes to the checks of one step. */
  datatype Context = Context(factNames: set<string>, stepIds: set<string>, reachable: set<string>)

  // ----- the issues of one step -----

  predicate Terminal(step: Step) {
    step.completion.Some? || step.handoff.Some?
  }

  function StepIssue(severity: Severity, code: Code, scenarioId: string, step: Step, subject: Option<string>): Issue {
    Issue(severity, code, Some(scenarioId), Some(step.id), subject)
  }

  function ReachIssues(ctx: Context, scenarioId: string, step: Step): seq<Issue> {
    if step.id in ctx.reachable then [] else [StepIssue(Warning, StepUnreachable, scenarioId, step, None)]
  }

  function ShapeIssues(scenarioId: string, step: Step): seq<Issue> {
    if Terminal(step) && step.transitions != [] then
      [StepIssue(Error, StepTerminalWithTransitions, scenarioId, step, None)]
    else if !Terminal(step) && step.transitions == [] then
      [StepIssue(Error, StepNonTerminalWithoutTransition, scenarioId, step, None)]
    else []
  }

  /** One issue for each required fact the schema does not define. */
  function FactIssues(ctx: Context, scenarioId: string, step: Step, requirements: seq<FactRequirement>): seq<Issue> {
    if requirements == [] then []
    else
      var last := requirements[|requirements| - 1];
      FactIssues(ctx, scenarioId, step, requirements[..|requirements| - 1])
      + (if last.name in ctx.factNames then []
         else [StepIssue(Error, StepFactMissingDefinition, scenarioId, step, Some(last.name))])
  }

  /** A step that runs an action reports its first undefined fact once more. */
  function ActionFactIssues(ctx: Context, scenarioId: string, step: Step): seq<Issue> {
    var missing := FactIssues(ctx, scenarioId, step, step.factRequirements);
    if step.actionConfig.Some? && missing != [] then [missing[0]] else []
  }

  function RefsOf(policy: seq<ToolBinding>): seq<string> {
    seq(|policy|, i requires 0 <= i < |policy| => policy[i].ref)
  }

  function ToolIssues(scenarioId: string, step: Step, policy: seq<ToolBinding>): seq<Issue> {
    if policy == [] then []
    else
      var init, last := policy[..|policy| - 1], policy[|policy| - 1];
      ToolIssues(scenarioId, step, init)
      + (if last.ref in RefsOf(init)
         then [StepIssue(Warning, StepDuplicateToolBinding, scenarioId, step, Some(last.ref))] else [])
  }

  function TransitionIdsOf(transitions: seq<Transition>): seq<string> {
    seq(|transitions|, i requires 0 <= i < |transitions| => transitions[i].id)
  }

  /** `earlier` lists the ids of the transitions met before, in this step or in a step before it. */
  function TransitionIssue(ctx: Context, scenarioId: string, step: Step, t: Transition,
                           earlier: seq<string>): seq<Issue> {
    (if t.id in earlier then [StepIssue(Error, TransitionDuplicateId, scenarioId, step, Some(t.id))] else [])
    + (if t.toStepId in ctx.stepIds then []
       else [StepIssue(Error, TransitionUnknownTarget, scenarioId, step, Some(t.id))])
  }

  function TransitionIssues(ctx: Context, scenarioId: string, step: Step, transitions: seq<Transition>,
                            earlier: seq<string>): seq<Issue> {
    if transitions == [] then []
    else
      var init, last := transitions[..|transitions| - 1], transitions[|transitions| - 1];
      TransitionIssues(ctx, scenarioId, step, init, earlier)
      + TransitionIssue(ctx, scenarioId, step, last, earlier + TransitionIdsOf(init))
  }

  function StepIssues(ctx: Context, scenarioId: string, step: Step, earlier: seq<string>): seq<Issue> {
    ReachIssues(ctx, scenarioId, step)
    + ShapeIssues(scenarioId, step)
    + ActionFactIssues(ctx, scenarioId, step)
    + ToolIssues(scenarioId, step, step.toolPolicy)
    + FactIssues(ctx, scenarioId, step, step.factRequirements)
    + TransitionIssues(ctx, scenarioId, step, step.transitions, earlier)
  }

  // ----- the issues of a document -----

  /** A step with the id of its scenario. */
  type Placed = (string, Step)

  function PlacedIn(scenario: Scenario): seq<Placed> {
    seq(|scenario.steps|, i requires 0 <= i < |scenario.steps| => (scenario.id, scenario.steps[i]))
  }

  function PlacedSteps(scenarios: seq<Scenario>): seq<Placed> {
    if scenarios == [] then []
    else PlacedSteps(scenarios[..|scenarios| - 1]) + PlacedIn(scenarios[|scenarios| - 1])
  }

  function TransitionIds(placed: seq<Placed>): seq<string> {
    if placed == [] then []
    else TransitionIds(placed[..|placed| - 1]) + TransitionIdsOf(placed[|placed| - 1].1.transitions)
  }

  function AllStepIssues(ctx: Context, placed: seq<Placed>): seq<Issue> {
    if placed == [] then []
    else
      var init, last := placed[..|placed| - 1], placed[|placed| - 1];
      AllStepIssues(ctx, init) + StepIssues(ctx, last.0, last.1, TransitionIds(init))
  }

  function WorkflowIssues(facts: seq<FactDef>): seq<Issue> {
    if facts == [] then []
    else
      var last := facts[|facts| - 1];
      WorkflowIssues(facts[..|facts| - 1])
      + (if last.workflowScope then [Issue(Error, FactWorkflowStorageUnavailable, None, None, Some(last.name))] else [])
  }

  function RouteIssue(route: ScenarioRoute, scenarioIds: set<string>, earlier: seq<string>): seq<Issue> {
    (if route.id in earlier then [Issue(Error, RouteDuplicateId, Some(route.fromScenarioId), None, Some(route.id))]
     else [])
    + (if route.fromScenarioId in scenarioIds then []
       else [Issue(Error, RouteUnknownSource, Some(route.fromScenarioId), None, Some(route.id))])
    + (if route.toScenarioId in scenarioIds then []
       else [Issue(Error, RouteUnknownTarget, Some(route.fromScenarioId), None, Some(route.id))])
  }

  function RouteIssues(routes: seq<ScenarioRoute>, scenarioIds: set<string>): seq<Issue> {
    if routes == [] then []
    else
      var init, last := routes[..|routes| - 1], routes[|routes| - 1];
      RouteIssues(init, scenarioIds) + RouteIssue(last, scenarioIds, RouteIdsOf(init))
  }

  function RouteRank(route: ScenarioRoute): Rank {
    (route.priority, route.id)
  }

  /** A scenario listing an entry channel. */
  datatype Use = Use(channel: string, scenarioId: string)

  function UsesIn(scenario: Scenario): seq<Use> {
    var channels := scenario.entryChannels;
    seq(|channels|, i requires 0 <= i < |channels| => Use(channels[i], scenario.id))
  }

  function UsesOf(scenarios: seq<Scenario>): seq<Use> {
    if scenarios == [] then []
    else UsesOf(scenarios[..|scenarios| - 1]) + UsesIn(scenarios[|scenarios| - 1])
  }

  /** The scenario that listed the channel most recently. */
  function LatestOwner(uses: seq<Use>, channel: string): Option<string> {
    if uses == [] then None
    else if uses[|uses| - 1].channel == channel then Some(uses[|uses| - 1].scenarioId)
    else LatestOwner(uses[..|uses| - 1], channel)
  }

  function ChannelIssues(uses: seq<Use>): seq<Issue> {
    if uses == [] then []
    else
      var init, last := uses[..|uses| - 1], uses[|uses| - 1];
      var owner := LatestOwner(init, last.channel);
      ChannelIssues(init)
      + (if owner.Some? && owner.value != last.scenarioId
         then [Issue(Error, EntryChannelConflict, Some(last.scenarioId), None, None)] else [])
  }

  function ExitIssues(doc: Document): seq<Issue> {
    if exists step :: step in Steps(doc) && Terminal(step) then []
    else [Issue(Warning, ExitPathMissing, None, None, None)]
  }

  function FactNames(doc: Document): set<string> {
    set f | f in doc.factSchema :: f.name
  }

  function AllIssues(doc: Document, reachable: set<string>): seq<Issue> {
    AllStepIssues(Context(FactNames(doc), StepIds(doc), reachable), PlacedSteps(doc.scenarios))
    + WorkflowIssues(doc.factSchema)
    + RouteIssues(SortByRank(doc.scenarioRoutes, RouteRank), ToSet(ScenarioIdsOf(doc.scenarios)))
    + ChannelIssues(UsesOf(doc.scenarios))
    + ExitIssues(doc)
  }

  function CountSeverity(issues: seq<Issue>, severity: Severity): nat {
    if issues == [] then 0
    else CountSeverity(issues[..|issues| - 1], severity) + (if issues[|issues| - 1].severity == severity then 1 else 0)
  }

  function ReportOf(doc: Document, reachable: set<string>): Report {
    var issues := AllIssues(doc, reachable);
    Report(CountSeverity(issues, Error) == 0, CountSeverity(issues, Error), CountSeverity(issues, Warning), issues)
  }

  /** The steps joined to the start step by a path. */
  ghost function ReachableSet(doc: Document): set<string> {
    set id | id in StepIds(doc) && Reachable(doc, id)
  }

  /** The validator meets the document's steps in document order. */
  lemma {:induction false} PlacedFollows(scenarios: seq<Scenario>)
    ensures |PlacedSteps(scenarios)| == |StepsOf(scenarios)|
    ensures forall i :: 0 <= i < |StepsOf(scenarios)| ==> PlacedSteps(scenarios)[i].1 == StepsOf(scenarios)[i]
  {
    if scenarios != [] {
      PlacedFollows(scenarios[..|scenarios| - 1]);
      StepsOfSnoc(scenarios);
      hide StepsOf;
    }
  }

  // ----- the validator's loops -----

  method CheckTools(scenarioId: string, step: Step) returns (issues: seq<Issue>)
    ensures issues == ToolIssues(scenarioId, step, step.toolPolicy)
  {
    issues := [];
    var policy := step.toolPolicy;
    var seenToolRefs: set<string> := {};
    for i := 0 to |policy|
      invariant issues == ToolIssues(scenarioId, step, policy[..i])
      invariant seenToolRefs == ToSet(RefsOf(policy[..i]))
    {
      assert policy[..i + 1][..i] == policy[..i];
      assert RefsOf(policy[..i + 1]) == RefsOf(policy[..i]) + [policy[i].ref];
      if policy[i].ref in seenToolRefs {
        issues := issues + [StepIssue(Warning, StepDuplicateToolBinding, scenarioId, step, Some(policy[i].ref))];
      }
      seenToolRefs := seenToolRefs + {policy[i].ref};
    }
    assert policy[..|policy|] == policy;
  }

  method CheckFacts(ctx: Context, scenarioId: string, step: Step) returns (issues: seq<Issue>)
    ensures issues == FactIssues(ctx, scenarioId, step, step.factRequirements)
  {
    issues := [];
    var requirements := step.factRequirements;
    for i := 0 to |requirements|
      invariant issues == FactIssues(ctx, scenarioId, step, requirements[..i])
    {
      assert requirements[..i + 1][..i] == requirements[..i];
      if requirements[i].name !in ctx.factNames {
        issues := issues + [StepIssue(Error, StepFactMissingDefinition, scenarioId, step, Some(requirements[i].name))];
      }
    }
    assert requirements[..|requirements|] == requirements;
  }

  /** `transitionIds` maps each id met so far to the step that used it last. */
  method CheckTransitions(ctx: Context, scenarioId: string, step: Step, transitionIds: map<string, string>,
                          earlier: seq<string>)
    returns (issues: seq<Issue>, owners: map<string, string>)
    requires transitionIds.Keys == ToSet(earlier)
    ensures issues == TransitionIssues(ctx, scenarioId, step, step.transitions, earlier)
    ensures owners.Keys == ToSet(earlier + TransitionIdsOf(step.transitions))
  {
    issues, owners := [], transitionIds;
    var transitions := step.transitions;
    assert earlier + TransitionIdsOf(transitions[..0]) == earlier;
    for i := 0 to |transitions|
      invariant issues == TransitionIssues(ctx, scenarioId, step, transitions[..i], earlier)
      invariant owners.Keys == ToSet(earlier + TransitionIdsOf(transitions[..i]))
    {
      var t := transitions[i];
      assert transitions[..i + 1][..i] == transitions[..i];
      assert earlier + TransitionIdsOf(transitions[..i + 1]) == earlier + TransitionIdsOf(transitions[..i]) + [t.id];
      var found: seq<Issue> := [];
      if t.id in owners {
        found := found + [StepIssue(Error, TransitionDuplicateId, scenarioId, step, Some(t.id))];
      }
      owners := owners[t.id := step.id];
      if t.toStepId !in ctx.stepIds {
        found := found + [StepIssue(Error, TransitionUnknownTarget, scenarioId, step, Some(t.id))];
      }
      assert found == TransitionIssue(ctx, scenarioId, step, t, earlier + TransitionIdsOf(transitions[..i]));
      issues := issues + found;
    }
    assert transitions[..|transitions|] == transitions;
  }

  method CheckStep(ctx: Context, scenarioId: string, step: Step, transitionIds: map<string, string>,
                   earlier: seq<string>)
    returns (issues: seq<Issue>, owners: map<string, string>)
    requires transitionIds.Keys == ToSet(earlier)
    ensures issues == StepIssues(ctx, scenarioId, step, earlier)
    ensures owners.Keys == ToSet(earlier + TransitionIdsOf(step.transitions))
  {
    hide ToolIssues, FactIssues, TransitionIssues, TransitionIdsOf, ToSet;
    issues := [];
    if step.id !in ctx.reachable {
      issues := issues + [StepIssue(Warning, StepUnreachable, scenarioId, step, None)];
    }
    if (step.completion.Some? || step.handoff.Some?) && step.transitions != [] {
      issues := issues + [StepIssue(Error, StepTerminalWithTransitions, scenarioId, step, None)];
    }
    if step.completion.None? && step.handoff.None? && step.transitions == [] {
      issues := issues + [StepIssue(Error, StepNonTerminalWithoutTransition, scenarioId, step, None)];
    }
    assert issues == ReachIssues(ctx, scenarioId, step) + ShapeIssues(scenarioId, step);
    var factIssues := CheckFacts(ctx, scenarioId, step);
    if step.actionConfig.Some? && factIssues != [] {
      issues := issues + [factIssues[0]];
    }
    var toolIssues := CheckTools(scenarioId, step);
    var transitionIssues;
    transitionIssues, owners := CheckTransitions(ctx, scenarioId, step, transitionIds, earlier);
    issues := issues + toolIssues + factIssues + transitionIssues;
  }

  method CheckSteps(ctx: Context, scenarios: seq<Scenario>) returns (issues: seq<Issue>)
    ensures issues == AllStepIssues(ctx, PlacedSteps(scenarios))
  {
    hide StepIssues, TransitionIdsOf;
    issues := [];
    var transitionIds: map<string, string> := map[];
    for i := 0 to |scenarios|
      invariant issues == AllStepIssues(ctx, PlacedSteps(scenarios[..i]))
      invariant transitionIds.Keys == ToSet(TransitionIds(PlacedSteps(scenarios[..i])))
    {
      var scenario := scenarios[i];
      var before := PlacedSteps(scenarios[..i]);
      var here := PlacedIn(scenario);
      assert scenarios[..i + 1][..i] == scenarios[..i];
      assert before + here[..0] == before;
      for k := 0 to |scenario.steps|
        invariant issues == AllStepIssues(ctx, before + here[..k])
        invariant transitionIds.Keys == ToSet(TransitionIds(before + here[..k]))
      {
        assert before + here[..k + 1] == (before + here[..k]) + [(scenario.id, scenario.steps[k])];
        assert (before + here[..k + 1])[..|before| + k] == before + here[..k];
        var found, owners := CheckStep(ctx, scenario.id, scenario.steps[k], transitionIds,
                                       TransitionIds(before + here[..k]));
        issues, transitionIds := issues + found, owners;
      }
      assert here[..|here|] == here;
    }
    assert scenarios[..|scenarios|] == scenarios;
  }

  method CheckWorkflow(facts: seq<FactDef>) returns (issues: seq<Issue>)
    ensures issues == WorkflowIssues(facts)
  {
    issues := [];
    for i := 0 to |facts|
      invariant issues == WorkflowIssues(facts[..i])
    {
      assert facts[..i + 1][..i] == facts[..i];
      if facts[i].workflowScope {
        issues := issues + [Issue(Error, FactWorkflowStorageUnavailable, None, None, Some(facts[i].name))];
      }
    }
    assert facts[..|facts|] == facts;
  }

  method CheckRoutes(routes: seq<ScenarioRoute>, scenarioIds: set<string>) returns (issues: seq<Issue>)
    ensures issues == RouteIssues(routes, scenarioIds)
  {
    issues := [];
    var seenRouteIds: set<string> := {};
    for i := 0 to |routes|
      invariant issues == RouteIssues(routes[..i], scenarioIds)
      invariant seenRouteIds == ToSet(RouteIdsOf(routes[..i]))
    {
      var route := routes[i];
      assert routes[..i + 1][..i] == routes[..i];
      assert RouteIdsOf(routes[..i + 1]) == RouteIdsOf(routes[..i]) + [route.id];
      var found: seq<Issue> := [];
      if route.id in seenRouteIds {
        found := found + [Issue(Error, RouteDuplicateId, Some(route.fromScenarioId), None, Some(route.id))];
      }
      seenRouteIds := seenRouteIds + {route.id};
      if route.fromScenarioId !in scenarioIds {
        found := found + [Issue(Error, RouteUnknownSource, Some(route.fromScenarioId), None, Some(route.id))];
      }
      if route.toScenarioId !in scenarioIds {
        found := found + [Issue(Error, RouteUnknownTarget, Some(route.fromScenarioId), None, Some(route.id))];
      }
      assert found == RouteIssue(route, scenarioIds, RouteIdsOf(routes[..i]));
      issues := issues + found;
    }
    assert routes[..|routes|] == routes;
  }

  /** The owner map is overwritten on every visit, so it holds the latest owner of each channel. */
  ghost predicate OwnersOf(owners: map<string, string>, uses: seq<Use>) {
    forall channel :: LatestOwner(uses, channel) == if channel in owners then Some(owners[channel]) else None
  }

  lemma ChannelVisit(owners: map<string, string>, uses: seq<Use>, use: Use)
    requires OwnersOf(owners, uses)
    ensures OwnersOf(owners[use.channel := use.scenarioId], uses + [use])
    ensures ChannelIssues(uses + [use]) ==
            ChannelIssues(uses)
            + (if use.channel in owners && owners[use.channel] != use.scenarioId
               then [Issue(Error, EntryChannelConflict, Some(use.scenarioId), None, None)] else [])
  {
    assert (uses + [use])[..|uses|] == uses;
    assert LatestOwner(uses, use.channel) == if use.channel in owners then Some(owners[use.channel]) else None;
  }

  method CheckChannels(scenarios: seq<Scenario>) returns (issues: seq<Issue>)
    ensures issues == ChannelIssues(UsesOf(scenarios))
  {
    hide ChannelIssues, OwnersOf;
    issues := [];
    ghost var none: seq<Use> := [];
    assert OwnersOf(map[], none) && ChannelIssues(none) == [] by {
      NoUses();
    }
    var channelOwners: map<string, string> := map[];
    for i := 0 to |scenarios|
      invariant issues == ChannelIssues(UsesOf(scenarios[..i]))
      invariant OwnersOf(channelOwners, UsesOf(scenarios[..i]))
    {
      var scenario := scenarios[i];
      var before := UsesOf(scenarios[..i]);
      var here := UsesIn(scenario);
      assert scenarios[..i + 1][..i] == scenarios[..i];
      assert before + here[..0] == before;
      for k := 0 to |scenario.entryChannels|
        invariant issues == ChannelIssues(before + here[..k])
        invariant OwnersOf(channelOwners, before + here[..k])
      {
        var channel := scenario.entryChannels[k];
        assert before + here[..k + 1] == (before + here[..k]) + [Use(channel, scenario.id)];
        ChannelVisit(channelOwners, before + here[..k], Use(channel, scenario.id));
        if channel in channelOwners && channelOwners[channel] != scenario.id {
          issues := issues + [Issue(Error, EntryChannelConflict, Some(scenario.id), None, None)];
        }
        channelOwners := channelOwners[channel := scenario.id];
      }
      assert here[..|here|] == here;
    }
    assert scenarios[..|scenarios|] == scenarios;
  }

  lemma NoUses()
    ensures OwnersOf(map[], []) && ChannelIssues([]) == []
  {
  }

  lemma ReachableSetIs(doc: Document, reachable: set<string>)
    requires !Stuck(doc) && forall id :: id in reachable <==> Reachable(doc, id)
    ensures reachable == ReachableSet(doc)
  {
    forall id | Reachable(doc, id)
      ensures id in StepIds(doc)
    {
      assert Successors(doc, id).Some?;
      StepByIdKnown(doc, id);
    }
  }

  /** The report, or None where the reachability search would raise KeyError. */
  method ValidateAgentDocument(doc: Document) returns (report: Option<Report>)
    ensures report.None? <==> Stuck(doc)
    ensures report.Some? ==> report.value == ReportOf(doc, ReachableSet(doc))
  {
    hide Stuck, Reachable, AllStepIssues, WorkflowIssues, RouteIssues, ChannelIssues, SortByRank, StepIds;
    var reachable := ReachableStepIds(doc);
    if reachable.None? {
      return None;
    }
    ReachableSetIs(doc, reachable.value);
    var ctx := Context(FactNames(doc), StepIds(doc), reachable.value);
    var issues := CheckSteps(ctx, doc.scenarios);
    var workflow := CheckWorkflow(doc.factSchema);
    var routes := CheckRoutes(SortByRank(doc.scenarioRoutes, RouteRank), ToSet(ScenarioIdsOf(doc.scenarios)));
    var channels := CheckChannels(doc.scenarios);
    issues := issues + workflow + routes + channels;
    if !exists step :: step in Steps(doc) && Terminal(step) {
      issues := issues + [Issue(Warning, ExitPathMissing, None, None, None)];
    }
    assert issues == AllIssues(doc, ReachableSet(doc));
    var errorCount := CountSeverity(issues, Error);
    return Some(Report(errorCount == 0, errorCount, CountSeverity(issues, Warning), issues));
  }
}

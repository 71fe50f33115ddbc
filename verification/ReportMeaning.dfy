/**
 A publish report holds exactly the issues that its document deserves, and as many of each as it deserves.
 */
module ReportMeaning {
  import opened Basics
  import opened Ordering
  import opened AgentDocument
  import opened Reachability
  import opened GraphMoves
  import opened PublishValidation
  import opened PublishReadiness
  import opened PublishTheorems
  import opened PublishMeaning

  // ----- the sections about the whole document -----

  lemma {:induction false} WorkflowIssueIff(facts: seq<FactDef>, x: Issue)
    ensures x in WorkflowIssues(facts) <==>
            exists i :: 0 <= i < |facts| && facts[i].workflowScope &&
              x == Issue(Error, FactWorkflowStorageUnavailable, None, None, Some(facts[i].name))
  {
    if facts != [] {
      var init := facts[..|facts| - 1];
      WorkflowIssueIff(init, x);
      assert forall i :: 0 <= i < |init| ==> init[i] == facts[i];
    }
  }

  ghost predicate RouteEarns(routes: seq<ScenarioRoute>, ids: set<string>, j: nat, x: Issue)
    requires j < |routes|
  {
    && x.severity == Error && x.scenarioId == Some(routes[j].fromScenarioId) && x.stepId == None
    && x.subject == Some(routes[j].id)
    && ((x.code == RouteDuplicateId && exists i :: 0 <= i < j && routes[i].id == routes[j].id) ||
        (x.code == RouteUnknownSource && routes[j].fromScenarioId !in ids) ||
        (x.code == RouteUnknownTarget && routes[j].toScenarioId !in ids))
  }

  lemma RouteIdsListed(routes: seq<ScenarioRoute>, id: string)
    ensures id in RouteIdsOf(routes) <==> exists i :: 0 <= i < |routes| && routes[i].id == id
  {
    if i :| 0 <= i < |routes| && routes[i].id == id {
      assert RouteIdsOf(routes)[i] == id;
    }
  }

  lemma {:induction false} RouteIssueIff(routes: seq<ScenarioRoute>, ids: set<string>, x: Issue)
    ensures x in RouteIssues(routes, ids) <==> exists j: nat :: j < |routes| && RouteEarns(routes, ids, j, x)
  {
    if routes != [] {
      var init, last, n := routes[..|routes| - 1], routes[|routes| - 1], |routes| - 1;
      RouteIssueIff(init, ids, x);
      forall j: nat | j < n
        ensures RouteEarns(routes, ids, j, x) <==> RouteEarns(init, ids, j, x)
      {
        assert forall i :: 0 <= i <= j ==> init[i] == routes[i];
      }
      LastRouteIff(routes, ids, x);
      hide RouteEarns, RouteIssue;
    }
  }

  lemma LastRouteIff(routes: seq<ScenarioRoute>, ids: set<string>, x: Issue)
    requires routes != []
    ensures x in RouteIssue(routes[|routes| - 1], ids, RouteIdsOf(routes[..|routes| - 1])) <==>
            RouteEarns(routes, ids, |routes| - 1, x)
  {
    var init, n := routes[..|routes| - 1], |routes| - 1;
    RouteIdsListed(init, routes[n].id);
    assert forall i :: 0 <= i < n ==> init[i] == routes[i];
    hide RouteIdsOf;
  }

  lemma IsScenarioIff(doc: Document, id: string)
    ensures id in ToSet(ScenarioIdsOf(doc.scenarios)) <==> IsScenario(doc, id)
  {
    var ids := ScenarioIdsOf(doc.scenarios);
    if i :| 0 <= i < |doc.scenarios| && doc.scenarios[i].id == id {
      assert ids[i] == id;
    }
  }

  lemma RoutePart(doc: Document, x: Issue)
    ensures var routes := SortByRank(doc.scenarioRoutes, RouteRank);
            x in RouteIssues(routes, ToSet(ScenarioIdsOf(doc.scenarios))) <==>
            exists j: nat :: j < |routes| && RouteDeserves(doc, routes, j, x)
  {
    var routes, ids := SortByRank(doc.scenarioRoutes, RouteRank), ToSet(ScenarioIdsOf(doc.scenarios));
    RouteIssueIff(routes, ids, x);
    hide SortByRank, RouteIssues;
    forall j: nat | j < |routes|
      ensures RouteEarns(routes, ids, j, x) <==> RouteDeserves(doc, routes, j, x)
    {
      IsScenarioIff(doc, routes[j].fromScenarioId);
      IsScenarioIff(doc, routes[j].toScenarioId);
      hide IsScenario, ScenarioIdsOf;
    }
    hide RouteEarns, RouteDeserves;
  }

  /** The latest owner of a channel is the scenario of its last use. */
  lemma {:induction false} LatestOwnerAt(uses: seq<Use>, channel: string, id: string)
    ensures LatestOwner(uses, channel) == Some(id) <==>
            exists a: nat :: a < |uses| && LastUse(uses, a, Use(channel, id))
  {
    if uses != [] {
      var init, last, n := uses[..|uses| - 1], uses[|uses| - 1], |uses| - 1;
      LatestOwnerAt(init, channel, id);
      if last.channel == channel {
        assert last == Use(channel, id) ==> LastUse(uses, n, Use(channel, id));
      } else {
        forall a: nat | a < n
          ensures LastUse(uses, a, Use(channel, id)) <==> LastUse(init, a, Use(channel, id))
        {
          LastUseInit(uses, a, Use(channel, id));
        }
      }
    }
  }

  lemma LastUseInit(uses: seq<Use>, a: nat, use: Use)
    requires uses != [] && a < |uses| - 1 && uses[|uses| - 1].channel != use.channel
    ensures LastUse(uses, a, use) <==> LastUse(uses[..|uses| - 1], a, use)
  {
    var init := uses[..|uses| - 1];
    assert forall i :: 0 <= i < |init| ==> init[i] == uses[i];
  }

  ghost predicate LastUse(uses: seq<Use>, a: nat, use: Use)
    requires a < |uses|
  {
    uses[a] == use && forall c :: a < c < |uses| ==> uses[c].channel != use.channel
  }

  /** Channels are met in document order: scenario after scenario, and inside a scenario as it lists them. */
  lemma {:induction false} UseAt(scenarios: seq<Scenario>, i: nat, k: nat)
    requires i < |scenarios| && k < |scenarios[i].entryChannels|
    ensures |UsesOf(scenarios[..i + 1])| == |UsesOf(scenarios[..i])| + |scenarios[i].entryChannels|
    ensures |UsesOf(scenarios[..i + 1])| <= |UsesOf(scenarios)|
    ensures UsesOf(scenarios)[|UsesOf(scenarios[..i])| + k] == Use(scenarios[i].entryChannels[k], scenarios[i].id)
  {
    var init, last := scenarios[..|scenarios| - 1], scenarios[|scenarios| - 1];
    var before := UsesOf(scenarios[..i]);
    assert scenarios[..i + 1][..i] == scenarios[..i];
    if i == |scenarios| - 1 {
      assert scenarios[..i + 1] == scenarios;
      assert UsesOf(scenarios) == before + UsesIn(last);
      assert UsesOf(scenarios)[|before| + k] == UsesIn(last)[k];
    } else {
      assert init[..i] == scenarios[..i] && init[..i + 1] == scenarios[..i + 1];
      UseAt(init, i, k);
    }
  }

  lemma {:induction false} ChannelIssueIff(uses: seq<Use>, x: Issue)
    ensures x in ChannelIssues(uses) <==> ChannelDeserves(uses, x)
  {
    if uses != [] {
      var init, last, n := uses[..|uses| - 1], uses[|uses| - 1], |uses| - 1;
      ChannelIssueIff(init, x);
      LastClashIff(uses);
      ChannelDeservesSnoc(uses, x);
      hide Clash, LatestOwner, ChannelDeserves;
    }
  }

  ghost predicate Ends(uses: seq<Use>, b: nat)
    requires b < |uses|
  {
    exists a: nat :: Clash(uses, a, b)
  }

  lemma LastClashIff(uses: seq<Use>)
    requires uses != []
    ensures var owner := LatestOwner(uses[..|uses| - 1], uses[|uses| - 1].channel);
            Ends(uses, |uses| - 1) <==> owner.Some? && owner.value != uses[|uses| - 1].scenarioId
  {
    var init, last, n := uses[..|uses| - 1], uses[|uses| - 1], |uses| - 1;
    var owner := LatestOwner(init, last.channel);
    hide LatestOwner;
    assert forall i :: 0 <= i < |init| ==> init[i] == uses[i];
    if owner.Some? && owner.value != last.scenarioId {
      LatestOwnerAt(init, last.channel, owner.value);
      var a: nat :| a < |init| && LastUse(init, a, Use(last.channel, owner.value));
      assert Clash(uses, a, n);
    }
    if Ends(uses, n) {
      var a: nat :| Clash(uses, a, n);
      LatestOwnerAt(init, last.channel, init[a].scenarioId);
      assert LastUse(init, a, Use(last.channel, init[a].scenarioId));
    }
  }

  lemma ChannelDeservesSnoc(uses: seq<Use>, x: Issue)
    requires uses != []
    ensures ChannelDeserves(uses, x) <==>
            || ChannelDeserves(uses[..|uses| - 1], x)
            || (Ends(uses, |uses| - 1) &&
                x == Issue(Error, EntryChannelConflict, Some(uses[|uses| - 1].scenarioId), None, None))
  {
    var init, n := uses[..|uses| - 1], |uses| - 1;
    forall a: nat, b: nat | b < n
      ensures Clash(uses, a, b) <==> Clash(init, a, b)
    {
      assert forall i :: 0 <= i < |init| ==> init[i] == uses[i];
    }
    assert forall a: nat, b: nat :: Clash(uses, a, b) ==> b <= n;
    assert forall a: nat, b: nat :: Clash(init, a, b) ==> b < n;
    assert forall i :: 0 <= i < |init| ==> init[i] == uses[i];
    hide Clash;
  }

  lemma ExitPart(doc: Document, x: Issue)
    ensures x in ExitIssues(doc) <==> NoExit(doc) && x == Issue(Warning, ExitPathMissing, None, None, None)
  {
    if NoExit(doc) {
      forall step | step in Steps(doc)
        ensures !Terminal(step)
      {
        StepsOfMember(doc.scenarios, step);
        var i :| 0 <= i < |doc.scenarios| && step in doc.scenarios[i].steps;
        var k :| 0 <= k < |doc.scenarios[i].steps| && doc.scenarios[i].steps[k] == step;
      }
    } else {
      var i: nat, k: nat :| i < |doc.scenarios| && k < |doc.scenarios[i].steps| && Terminal(doc.scenarios[i].steps[k]);
      StepsOfMember(doc.scenarios, doc.scenarios[i].steps[k]);
    }
  }

  lemma WorkflowPart(doc: Document, x: Issue)
    ensures x in WorkflowIssues(doc.factSchema) <==> WorkflowDeserves(doc, x)
  {
    WorkflowIssueIff(doc.factSchema, x);
    hide WorkflowIssues;
  }

  lemma StepPart(doc: Document, reachable: set<string>, x: Issue)
    ensures var placed := PlacedSteps(doc.scenarios);
            x in AllStepIssues(Context(FactNames(doc), StepIds(doc), reachable), placed) <==>
            exists p: nat :: p < |placed| && StepDeserves(doc, reachable, placed, p, x)
  {
    var ctx, placed := Context(FactNames(doc), StepIds(doc), reachable), PlacedSteps(doc.scenarios);
    AllStepIssueIff(ctx, placed, x);
    hide AllStepIssues, PlacedSteps, FactNames, StepIds, TransitionIds, StepEarns, StepDeserves;
    forall p: nat | p < |placed|
      ensures StepEarns(ctx, placed[p].0, placed[p].1, TransitionIds(placed[..p]), x) <==>
              StepDeserves(doc, reachable, placed, p, x)
    {
      StepEarnsIff(doc, reachable, placed, p, x);
    }
  }

  /** The report of any document holds an issue exactly when the document deserves it. */
  lemma ReportedIff(doc: Document, reachable: set<string>, x: Issue)
    ensures x in ReportOf(doc, reachable).issues <==> Deserves(doc, reachable, x)
  {
    hide AllStepIssues, WorkflowIssues, RouteIssues, ChannelIssues, ExitIssues, CountSeverity;
    hide PlacedSteps, SortByRank, UsesOf, FactNames, StepIds, ScenarioIdsOf;
    hide StepDeserves, WorkflowDeserves, RouteDeserves, ChannelDeserves, NoExit;
    StepPart(doc, reachable, x);
    WorkflowPart(doc, x);
    RoutePart(doc, x);
    ChannelIssueIff(UsesOf(doc.scenarios), x);
    ExitPart(doc, x);
  }

  /** On a constructed document "reachable" is what a finite path of transitions and routes joins to the start. */
  lemma UnreachableReportedIff(doc: Document, p: nat, x: Issue)
    requires Constructed(doc) && p < |PlacedSteps(doc.scenarios)|
    requires var (sid, step) := PlacedSteps(doc.scenarios)[p];
             x == Issue(Warning, StepUnreachable, Some(sid), Some(step.id), None)
    ensures x in ReportOf(doc, ReachableSet(doc)).issues <==> !Joined(doc, PlacedSteps(doc.scenarios)[p].1.id)
  {
    var placed, reachable := PlacedSteps(doc.scenarios), ReachableSet(doc);
    var id := placed[p].1.id;
    hide ReportOf, PlacedSteps, ReachableSet, Constructed, Joined, SortByRank, UsesOf;
    ReportedIff(doc, reachable, x);
    JoinedInSet(doc, p);
    hide WorkflowDeserves, RouteDeserves, ChannelDeserves, NoExit;
    assert !WorkflowDeserves(doc, x) && !ChannelDeserves(UsesOf(doc.scenarios), x) by { OnlyStepsDeserve(doc, x); }
    assert forall j: nat :: j < |SortByRank(doc.scenarioRoutes, RouteRank)| ==>
        !RouteDeserves(doc, SortByRank(doc.scenarioRoutes, RouteRank), j, x) by { OnlyStepsDeserve(doc, x); }
    assert StepDeserves(doc, reachable, placed, p, x) <==> id !in reachable;
  }

  lemma OnlyStepsDeserve(doc: Document, x: Issue)
    requires x.code == StepUnreachable
    ensures !WorkflowDeserves(doc, x) && !ChannelDeserves(UsesOf(doc.scenarios), x)
    ensures var routes := SortByRank(doc.scenarioRoutes, RouteRank);
            forall j: nat :: j < |routes| ==> !RouteDeserves(doc, routes, j, x)
  {
    hide UsesOf, SortByRank, Clash;
  }

  lemma JoinedInSet(doc: Document, p: nat)
    requires Constructed(doc) && p < |PlacedSteps(doc.scenarios)|
    ensures PlacedSteps(doc.scenarios)[p].1.id in ReachableSet(doc) <==>
            Joined(doc, PlacedSteps(doc.scenarios)[p].1.id)
  {
    var id := PlacedSteps(doc.scenarios)[p].1.id;
    PlacedFollows(doc.scenarios);
    hide Constructed, PlacedSteps, Reachable, Joined;
    StepsAre(doc);
    assert IdsOf(Steps(doc))[p] == id;
    ReachableIff(doc, id);
  }

  /** On a constructed document a run follows the transitions of the steps with the id it stands on. */
  lemma LeadsIff(doc: Document, from: string, to: string)
    requires Constructed(doc)
    ensures Leads(doc, from, to) <==> TransitionTo(doc, from, to)
  {
    hide Constructed, StepById, Steps, TransitionTargets;
    if StepById(doc, from).Some? {
      TransitionEdge(doc, from, to);
    } else if TransitionTo(doc, from, to) {
      var i: nat, k: nat :| i < |doc.scenarios| && k < |doc.scenarios[i].steps| && doc.scenarios[i].steps[k].id == from;
      var n := StepPosition(doc, i, k);
      StepFound(doc, n);
      assert false;
    }
  }

  // ----- how many -----

  function Positions(issues: seq<Issue>, severity: Severity): set<nat> {
    set i: nat | i < |issues| && issues[i].severity == severity
  }

  /** The two counts of a report number the positions of its errors and of its warnings. */
  lemma {:induction false} CountsPositions(issues: seq<Issue>, severity: Severity)
    ensures CountSeverity(issues, severity) == |Positions(issues, severity)|
  {
    if issues != [] {
      var init, n: nat := issues[..|issues| - 1], |issues| - 1;
      CountsPositions(init, severity);
      assert Positions(issues, severity) ==
             Positions(init, severity) + if issues[n].severity == severity then {n} else {};
    }
  }

  /** An issue about facts, tools or transitions is counted where it arises. */
  lemma StepCountParts(ctx: Context, sid: string, step: Step, earlier: seq<string>, code: Code)
    requires code == StepFactMissingDefinition || code == StepDuplicateToolBinding
    ensures Count(StepIssues(ctx, sid, step, earlier), code) ==
            Count(ActionFactIssues(ctx, sid, step), code) + Count(ToolIssues(sid, step, step.toolPolicy), code)
            + Count(FactIssues(ctx, sid, step, step.factRequirements), code)
  {
    var a := ReachIssues(ctx, sid, step);
    var b := ShapeIssues(sid, step);
    var c := ActionFactIssues(ctx, sid, step);
    var d := ToolIssues(sid, step, step.toolPolicy);
    var e := FactIssues(ctx, sid, step, step.factRequirements);
    var f := TransitionIssues(ctx, sid, step, step.transitions, earlier);
    TransitionCodes(ctx, sid, step, step.transitions, earlier);
    assert Never(a, code) && Never(b, code) && Never(f, code);
    hide ReachIssues, ShapeIssues, ActionFactIssues, ToolIssues, FactIssues, TransitionIssues, Count, Never;
    CountZero(a, code);
    CountZero(b, code);
    CountZero(f, code);
    CountConcat(a, b, code);
    CountConcat(a + b, c, code);
    CountConcat(a + b + c, d, code);
    CountConcat(a + b + c + d, e, code);
    CountConcat(a + b + c + d + e, f, code);
  }

  /** A step's tool issues number its bindings less the distinct refs among them. */
  lemma StepToolCount(ctx: Context, sid: string, step: Step, earlier: seq<string>)
    ensures Count(StepIssues(ctx, sid, step, earlier), StepDuplicateToolBinding) ==
            |step.toolPolicy| - |RefSet(step.toolPolicy)|
  {
    var code := StepDuplicateToolBinding;
    StepCountParts(ctx, sid, step, earlier, code);
    FactCodes(ctx, sid, step, step.factRequirements);
    ToolCodes(sid, step, step.toolPolicy);
    var c, d := ActionFactIssues(ctx, sid, step), ToolIssues(sid, step, step.toolPolicy);
    var e := FactIssues(ctx, sid, step, step.factRequirements);
    hide ToolIssues, FactIssues, RefSet, StepIssues;
    assert Never(c, code) && Never(e, code);
    CountZero(c, code);
    CountZero(e, code);
    AllCount(d, code);
    ToolRepeats(sid, step, step.toolPolicy);
  }

  /** The positions of the required facts that the schema does not define. */
  function Missing(defined: set<string>, rs: seq<FactRequirement>): set<nat> {
    set k: nat | k < |rs| && rs[k].name !in defined
  }

  lemma {:induction false} FactCount(ctx: Context, sid: string, step: Step, rs: seq<FactRequirement>)
    ensures |FactIssues(ctx, sid, step, rs)| == |Missing(ctx.factNames, rs)|
  {
    if rs != [] {
      var init, n: nat := rs[..|rs| - 1], |rs| - 1;
      FactCount(ctx, sid, step, init);
      assert Missing(ctx.factNames, rs) ==
             Missing(ctx.factNames, init) + if rs[n].name !in ctx.factNames then {n} else {};
    }
  }

  /** One issue for each undefined fact, and one more where the step runs an action. */
  lemma StepFactCount(ctx: Context, sid: string, step: Step, earlier: seq<string>)
    ensures var missing := |Missing(ctx.factNames, step.factRequirements)|;
            Count(StepIssues(ctx, sid, step, earlier), StepFactMissingDefinition) ==
            missing + if step.actionConfig.Some? && missing > 0 then 1 else 0
  {
    var code := StepFactMissingDefinition;
    StepCountParts(ctx, sid, step, earlier, code);
    FactCodes(ctx, sid, step, step.factRequirements);
    ToolCodes(sid, step, step.toolPolicy);
    FactCount(ctx, sid, step, step.factRequirements);
    var c, d := ActionFactIssues(ctx, sid, step), ToolIssues(sid, step, step.toolPolicy);
    var e := FactIssues(ctx, sid, step, step.factRequirements);
    hide ToolIssues, FactIssues, Missing, StepIssues;
    assert Never(d, code);
    CountZero(d, code);
    AllCount(c, code);
    AllCount(e, code);
  }

  function Sum(steps: seq<Step>, amount: Step -> nat): nat {
    if steps == [] then 0 else Sum(steps[..|steps| - 1], amount) + amount(steps[|steps| - 1])
  }

  function StepsIn(placed: seq<Placed>): seq<Step> {
    seq(|placed|, i requires 0 <= i < |placed| => placed[i].1)
  }

  lemma {:induction false} StepCountsAddUp(ctx: Context, placed: seq<Placed>, code: Code, amount: Step -> nat)
    requires forall p :: 0 <= p < |placed| ==>
               Count(StepIssues(ctx, placed[p].0, placed[p].1, TransitionIds(placed[..p])), code) == amount(placed[p].1)
    ensures Count(AllStepIssues(ctx, placed), code) == Sum(StepsIn(placed), amount)
  {
    hide StepIssues, TransitionIds, Count;
    if placed != [] {
      var init, last, n := placed[..|placed| - 1], placed[|placed| - 1], |placed| - 1;
      assert forall p :: 0 <= p < n ==> init[p] == placed[p] && init[..p] == placed[..p];
      StepCountsAddUp(ctx, init, code, amount);
      assert placed[..n] == init;
      assert StepsIn(placed)[..n] == StepsIn(init);
      CountConcat(AllStepIssues(ctx, init), StepIssues(ctx, last.0, last.1, TransitionIds(init)), code);
    } else {
      NoneCounted(code);
    }
  }

  lemma NoneCounted(code: Code)
    ensures Count([], code) == 0
  {
  }

  function Repetitions(step: Step): nat {
    RefSetSize(step.toolPolicy);
    |step.toolPolicy| - |RefSet(step.toolPolicy)|
  }

  lemma {:induction false} RefSetSize(policy: seq<ToolBinding>)
    ensures |RefSet(policy)| <= |policy|
  {
    if policy == [] {
      assert RefSet(policy) == {};
    } else {
      RefSetSnoc(policy);
      RefSetSize(policy[..|policy| - 1]);
    }
  }

  /** Duplicate-binding issues number, over all steps, the bindings less the distinct refs of each step. */
  lemma DuplicateBindingAccounting(doc: Document, reachable: set<string>)
    ensures Count(AllIssues(doc, reachable), StepDuplicateToolBinding) == Sum(Steps(doc), Repetitions)
  {
    var ctx, placed := Context(FactNames(doc), StepIds(doc), reachable), PlacedSteps(doc.scenarios);
    hide AllIssues, Steps, StepIds, FactNames, PlacedSteps, Sum, Count, RefSet, StepIssues, TransitionIds;
    StepSectionCount(doc, reachable, StepDuplicateToolBinding);
    forall p | 0 <= p < |placed|
      ensures Count(StepIssues(ctx, placed[p].0, placed[p].1, TransitionIds(placed[..p])), StepDuplicateToolBinding) ==
              Repetitions(placed[p].1)
    {
      StepToolCount(ctx, placed[p].0, placed[p].1, TransitionIds(placed[..p]));
    }
    StepCountsAddUp(ctx, placed, StepDuplicateToolBinding, Repetitions);
    PlacedStepsAre(doc);
  }

  lemma PlacedStepsAre(doc: Document)
    ensures StepsIn(PlacedSteps(doc.scenarios)) == Steps(doc)
  {
    PlacedFollows(doc.scenarios);
  }

  /** The missing-definition issues of a document: one for each undefined fact of a step, one more for an action. */
  lemma MissingFactAccounting(doc: Document, reachable: set<string>)
    ensures Count(AllIssues(doc, reachable), StepFactMissingDefinition) ==
            Sum(Steps(doc), (step: Step) => MissingReports(FactNames(doc), step))
  {
    var ctx, placed := Context(FactNames(doc), StepIds(doc), reachable), PlacedSteps(doc.scenarios);
    var names := FactNames(doc);
    var amount := (step: Step) => MissingReports(names, step);
    hide AllIssues, Steps, StepIds, FactNames, PlacedSteps, Sum, Count, Missing, StepIssues, TransitionIds;
    StepSectionCount(doc, reachable, StepFactMissingDefinition);
    forall p | 0 <= p < |placed|
      ensures Count(StepIssues(ctx, placed[p].0, placed[p].1, TransitionIds(placed[..p])), StepFactMissingDefinition) ==
              amount(placed[p].1)
    {
      StepFactCount(ctx, placed[p].0, placed[p].1, TransitionIds(placed[..p]));
    }
    StepCountsAddUp(ctx, placed, StepFactMissingDefinition, amount);
    PlacedStepsAre(doc);
  }

  function MissingReports(names: set<string>, step: Step): nat {
    var missing := |Missing(names, step.factRequirements)|;
    missing + if step.actionConfig.Some? && missing > 0 then 1 else 0
  }
}

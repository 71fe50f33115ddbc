/**
 Exactly which documents get a valid publish report, and what that guarantees at run time.
 */
module PublishReadiness {
  import opened Basics
  import opened Ordering
  import opened PythonDict
  import opened AgentDocument
  import opened Reachability
  import opened PublishValidation

  predicate NoErrors(issues: seq<Issue>) {
    forall i :: 0 <= i < |issues| ==> issues[i].severity != Error
  }

  lemma {:induction false} ErrorCountZero(issues: seq<Issue>)
    ensures CountSeverity(issues, Error) == 0 <==> NoErrors(issues)
  {
    if issues != [] {
      ErrorCountZero(issues[..|issues| - 1]);
    }
  }

  lemma NoErrorsConcat(a: seq<Issue>, b: seq<Issue>)
    ensures NoErrors(a + b) <==> NoErrors(a) && NoErrors(b)
  {
    assert forall i :: 0 <= i < |b| ==> (a + b)[|a| + i] == b[i];
    if NoErrors(a + b) {
      forall i | 0 <= i < |a|
        ensures a[i].severity != Error
      {
        assert (a + b)[i] == a[i];
      }
    }
  }

  lemma DistinctSnoc<T>(xs: seq<T>, x: T)
    ensures Distinct(xs + [x]) <==> Distinct(xs) && x !in xs
  {
    var ys := xs + [x];
    assert forall i :: 0 <= i < |xs| ==> ys[i] == xs[i];
    assert ys[|xs|] == x;
    if Distinct(ys) {
      forall i, j | 0 <= i < j < |xs|
        ensures xs[i] != xs[j]
      {
        assert ys[i] != ys[j];
      }
    }
  }

  // ----- one step -----

  predicate FactsDefined(ctx: Context, requirements: seq<FactRequirement>) {
    forall i :: 0 <= i < |requirements| ==> requirements[i].name in ctx.factNames
  }

  lemma {:induction false} FactIssuesIff(ctx: Context, scenarioId: string, step: Step,
                                         requirements: seq<FactRequirement>)
    ensures NoErrors(FactIssues(ctx, scenarioId, step, requirements)) <==> FactsDefined(ctx, requirements)
    ensures FactsDefined(ctx, requirements) ==> FactIssues(ctx, scenarioId, step, requirements) == []
  {
    if requirements != [] {
      var init, last := requirements[..|requirements| - 1], requirements[|requirements| - 1];
      FactIssuesIff(ctx, scenarioId, step, init);
      var one := if last.name in ctx.factNames then []
                 else [StepIssue(Error, StepFactMissingDefinition, scenarioId, step, Some(last.name))];
      NoErrorsConcat(FactIssues(ctx, scenarioId, step, init), one);
      assert NoErrors(one) <==> last.name in ctx.factNames by {
        if last.name !in ctx.factNames {
          assert one[0].severity == Error;
        }
      }
    }
  }

  lemma {:induction false} ToolIssuesNoErrors(scenarioId: string, step: Step, policy: seq<ToolBinding>)
    ensures NoErrors(ToolIssues(scenarioId, step, policy))
  {
    if policy != [] {
      ToolIssuesNoErrors(scenarioId, step, policy[..|policy| - 1]);
    }
  }

  predicate TargetsIn(ctx: Context, ts: seq<Transition>) {
    forall i :: 0 <= i < |ts| ==> ts[i].toStepId in ctx.stepIds
  }

  lemma OneTransitionIff(ctx: Context, scenarioId: string, step: Step, t: Transition, earlier: seq<string>)
    ensures NoErrors(TransitionIssue(ctx, scenarioId, step, t, earlier)) <==>
            t.id !in earlier && t.toStepId in ctx.stepIds
  {
    var issues := TransitionIssue(ctx, scenarioId, step, t, earlier);
    if t.id in earlier || t.toStepId !in ctx.stepIds {
      assert issues[0].severity == Error;
    }
  }

  lemma {:induction false} TransitionIssuesIff(ctx: Context, scenarioId: string, step: Step, ts: seq<Transition>,
                                               earlier: seq<string>)
    requires Distinct(earlier)
    ensures NoErrors(TransitionIssues(ctx, scenarioId, step, ts, earlier)) <==>
            Distinct(earlier + TransitionIdsOf(ts)) && TargetsIn(ctx, ts)
  {
    if ts == [] {
      assert earlier + TransitionIdsOf(ts) == earlier;
    } else {
      var init, last := ts[..|ts| - 1], ts[|ts| - 1];
      var seen := earlier + TransitionIdsOf(init);
      assert earlier + TransitionIdsOf(ts) == seen + [last.id];
      assert TargetsIn(ctx, ts) <==> TargetsIn(ctx, init) && last.toStepId in ctx.stepIds;
      TransitionIssuesIff(ctx, scenarioId, step, init, earlier);
      DistinctSnoc(seen, last.id);
      OneTransitionIff(ctx, scenarioId, step, last, seen);
      hide NoErrors, TransitionIssue, Distinct, TransitionIdsOf, TargetsIn;
      NoErrorsConcat(TransitionIssues(ctx, scenarioId, step, init, earlier),
                     TransitionIssue(ctx, scenarioId, step, last, seen));
    }
  }

  /** A step ends the conversation exactly when it leads nowhere. */
  predicate ShapeSound(step: Step) {
    Terminal(step) <==> step.transitions == []
  }

  lemma ShapeIssuesIff(scenarioId: string, step: Step)
    ensures NoErrors(ShapeIssues(scenarioId, step)) <==> ShapeSound(step)
  {
    var issues := ShapeIssues(scenarioId, step);
    if !ShapeSound(step) {
      assert issues[0].severity == Error;
    }
  }

  lemma StepIssuesIff(ctx: Context, scenarioId: string, step: Step, earlier: seq<string>)
    requires Distinct(earlier)
    ensures NoErrors(StepIssues(ctx, scenarioId, step, earlier)) <==>
            && ShapeSound(step)
            && FactsDefined(ctx, step.factRequirements)
            && Distinct(earlier + TransitionIdsOf(step.transitions))
            && TargetsIn(ctx, step.transitions)
  {
    var a := ReachIssues(ctx, scenarioId, step);
    var b := ShapeIssues(scenarioId, step);
    var c := ActionFactIssues(ctx, scenarioId, step);
    var d := ToolIssues(scenarioId, step, step.toolPolicy);
    var e := FactIssues(ctx, scenarioId, step, step.factRequirements);
    var f := TransitionIssues(ctx, scenarioId, step, step.transitions, earlier);
    assert NoErrors(a);
    FactIssuesIff(ctx, scenarioId, step, step.factRequirements);
    assert FactsDefined(ctx, step.factRequirements) ==> c == [];
    ShapeIssuesIff(scenarioId, step);
    ToolIssuesNoErrors(scenarioId, step, step.toolPolicy);
    TransitionIssuesIff(ctx, scenarioId, step, step.transitions, earlier);
    assert c == [] ==> NoErrors(c);
    hide NoErrors, ReachIssues, ShapeIssues, ActionFactIssues, ToolIssues, FactIssues, TransitionIssues;
    hide Distinct, TransitionIdsOf, TargetsIn, FactsDefined, ShapeSound;
    NoErrorsConcat(a, b);
    NoErrorsConcat(a + b, c);
    NoErrorsConcat(a + b + c, d);
    NoErrorsConcat(a + b + c + d, e);
    NoErrorsConcat(a + b + c + d + e, f);
  }

  // ----- all steps -----

  predicate StepSound(ctx: Context, step: Step) {
    ShapeSound(step) && FactsDefined(ctx, step.factRequirements) && TargetsIn(ctx, step.transitions)
  }

  predicate PlacedSound(ctx: Context, placed: seq<Placed>) {
    forall i :: 0 <= i < |placed| ==> StepSound(ctx, placed[i].1)
  }

  lemma PlacedSoundSnoc(ctx: Context, placed: seq<Placed>)
    requires placed != []
    ensures PlacedSound(ctx, placed) <==>
            PlacedSound(ctx, placed[..|placed| - 1]) && StepSound(ctx, placed[|placed| - 1].1)
  {
    hide StepSound;
  }

  lemma DistinctPrefix<T>(a: seq<T>, b: seq<T>)
    requires Distinct(a + b)
    ensures Distinct(a)
  {
    assert forall i :: 0 <= i < |a| ==> (a + b)[i] == a[i];
  }

  lemma {:induction false} AllStepIssuesIff(ctx: Context, placed: seq<Placed>)
    ensures NoErrors(AllStepIssues(ctx, placed)) <==> PlacedSound(ctx, placed) && Distinct(TransitionIds(placed))
  {
    if placed != [] {
      var init, last := placed[..|placed| - 1], placed[|placed| - 1];
      var earlier := TransitionIds(init);
      AllStepIssuesIff(ctx, init);
      PlacedSoundSnoc(ctx, placed);
      hide NoErrors, StepIssues, Distinct, TransitionIdsOf, PlacedSound;
      NoErrorsConcat(AllStepIssues(ctx, init), StepIssues(ctx, last.0, last.1, earlier));
      if Distinct(earlier) {
        StepIssuesIff(ctx, last.0, last.1, earlier);
      } else if Distinct(TransitionIds(placed)) {
        DistinctPrefix(earlier, TransitionIdsOf(last.1.transitions));
      }
    }
  }

  // ----- facts, routes, channels -----

  lemma {:induction false} WorkflowIssuesIff(facts: seq<FactDef>)
    ensures NoErrors(WorkflowIssues(facts)) <==> forall i :: 0 <= i < |facts| ==> !facts[i].workflowScope
  {
    if facts != [] {
      var init, last := facts[..|facts| - 1], facts[|facts| - 1];
      WorkflowIssuesIff(init);
      var one := if last.workflowScope then [Issue(Error, FactWorkflowStorageUnavailable, None, None, Some(last.name))]
                 else [];
      NoErrorsConcat(WorkflowIssues(init), one);
      if last.workflowScope {
        assert one[0].severity == Error;
      }
    }
  }

  predicate RoutesKnown(routes: seq<ScenarioRoute>, ids: set<string>) {
    forall i :: 0 <= i < |routes| ==> routes[i].fromScenarioId in ids && routes[i].toScenarioId in ids
  }

  lemma {:induction false} RouteIssuesNone(routes: seq<ScenarioRoute>, ids: set<string>)
    requires RoutesKnown(routes, ids) && Distinct(RouteIdsOf(routes))
    ensures RouteIssues(routes, ids) == []
  {
    if routes != [] {
      var init, last := routes[..|routes| - 1], routes[|routes| - 1];
      assert RouteIdsOf(routes) == RouteIdsOf(init) + [last.id];
      DistinctSnoc(RouteIdsOf(init), last.id);
      RouteIssuesNone(init, ids);
    }
  }

  lemma DistinctPermutes<T>(xs: seq<T>, ys: seq<T>)
    requires Distinct(xs) && multiset(xs) == multiset(ys)
    ensures Distinct(ys)
  {
    DistinctByCount(xs);
    DistinctByCount(ys);
    assert |xs| == |multiset(xs)| == |multiset(ys)| == |ys|;
    forall x
      ensures x in ToSet(xs) <==> x in ToSet(ys)
    {
      assert x in xs <==> x in multiset(xs);
      assert x in ys <==> x in multiset(ys);
    }
    assert ToSet(xs) == ToSet(ys);
  }

  /** Routes with distinct ids keep them when sorted. */
  lemma SortedRouteIdsDistinct(routes: seq<ScenarioRoute>)
    requires Distinct(RouteIdsOf(routes))
    ensures Distinct(RouteIdsOf(SortByRank(routes, RouteRank)))
  {
    var sorted := SortByRank(routes, RouteRank);
    SortByRankSorts(routes, RouteRank);
    var ids := RouteIdsOf(routes);
    assert Distinct(routes) by {
      assert forall i :: 0 <= i < |routes| ==> ids[i] == routes[i].id;
    }
    DistinctPermutes(routes, sorted);
    forall i, j | 0 <= i < j < |sorted|
      ensures sorted[i].id != sorted[j].id
    {
      SortByRankMembers(routes, RouteRank, sorted[i]);
      SortByRankMembers(routes, RouteRank, sorted[j]);
      var a :| 0 <= a < |routes| && routes[a] == sorted[i];
      var b :| 0 <= b < |routes| && routes[b] == sorted[j];
      assert ids[a] == sorted[i].id && ids[b] == sorted[j].id;
      assert a != b;
    }
  }

  /** On a constructed document the route checks find nothing: their three codes are never produced. */
  lemma ConstructedRoutesClean(doc: Document)
    requires Constructed(doc)
    ensures RouteIssues(SortByRank(doc.scenarioRoutes, RouteRank), ToSet(ScenarioIdsOf(doc.scenarios))) == []
  {
    ValidateDocumentIff(doc);
    var routes, ids := doc.scenarioRoutes, ToSet(ScenarioIdsOf(doc.scenarios));
    assert RoutesKnown(routes, ids);
    SortedRouteIdsDistinct(routes);
    var sorted := SortByRank(routes, RouteRank);
    hide Constructed, ValidateDocument, ScenarioIdsOf, RouteIdsOf, SortByRank, RouteIssues, Distinct, TargetsKnown,
         Steps;
    forall i | 0 <= i < |sorted|
      ensures sorted[i].fromScenarioId in ids && sorted[i].toScenarioId in ids
    {
      SortByRankMembers(routes, RouteRank, sorted[i]);
    }
    RouteIssuesNone(sorted, ids);
  }

  /** No channel is listed by two scenarios with different ids. */
  predicate ChannelsUnshared(uses: seq<Use>) {
    forall i, j :: 0 <= i < |uses| && 0 <= j < |uses| && uses[i].channel == uses[j].channel ==>
                     uses[i].scenarioId == uses[j].scenarioId
  }

  lemma {:induction false} LatestOwnerIs(uses: seq<Use>, channel: string)
    ensures LatestOwner(uses, channel).None? ==> forall i :: 0 <= i < |uses| ==> uses[i].channel != channel
    ensures LatestOwner(uses, channel).Some? ==> Use(channel, LatestOwner(uses, channel).value) in uses
  {
    if uses != [] {
      LatestOwnerIs(uses[..|uses| - 1], channel);
    }
  }

  /** Although only the latest owner of a channel is remembered, a conflict anywhere is reported. */
  lemma {:induction false} ChannelIssuesIff(uses: seq<Use>)
    ensures ChannelIssues(uses) == [] <==> ChannelsUnshared(uses)
    ensures NoErrors(ChannelIssues(uses)) <==> ChannelIssues(uses) == []
  {
    if uses != [] {
      var init, last := uses[..|uses| - 1], uses[|uses| - 1];
      ChannelIssuesIff(init);
      LatestOwnerIs(init, last.channel);
      var owner := LatestOwner(init, last.channel);
      assert forall i :: 0 <= i < |init| ==> uses[i] == init[i];
      var one := if owner.Some? && owner.value != last.scenarioId
                 then [Issue(Error, EntryChannelConflict, Some(last.scenarioId), None, None)] else [];
      NoErrorsConcat(ChannelIssues(init), one);
      if one != [] {
        assert one[0].severity == Error;
      }
      hide NoErrors, LatestOwner;
      if owner.Some? {
        var k :| 0 <= k < |init| && init[k] == Use(last.channel, owner.value);
        assert uses[k].channel == uses[|uses| - 1].channel;
        if ChannelsUnshared(init) && owner.value == last.scenarioId {
          forall i | 0 <= i < |init| && init[i].channel == last.channel
            ensures init[i].scenarioId == last.scenarioId
          {
            assert init[i].channel == init[k].channel;
          }
        }
      }
      if ChannelsUnshared(uses) {
        forall i, j | 0 <= i < |init| && 0 <= j < |init| && init[i].channel == init[j].channel
          ensures init[i].scenarioId == init[j].scenarioId
        {
          assert uses[i].channel == uses[j].channel;
        }
      }
    }
  }

  lemma {:induction false} UsesOfMember(scenarios: seq<Scenario>, use: Use)
    ensures use in UsesOf(scenarios) <==>
            exists i :: 0 <= i < |scenarios| && scenarios[i].id == use.scenarioId &&
              use.channel in scenarios[i].entryChannels
  {
    if scenarios != [] {
      var init, last := scenarios[..|scenarios| - 1], scenarios[|scenarios| - 1];
      UsesOfMember(init, use);
      UsesInMember(last, use);
      hide UsesIn;
      if i :| 0 <= i < |scenarios| && scenarios[i].id == use.scenarioId && use.channel in scenarios[i].entryChannels {
        assert i < |init| ==> init[i] == scenarios[i];
      }
      if i :| 0 <= i < |init| && init[i].id == use.scenarioId && use.channel in init[i].entryChannels {
        assert scenarios[i] == init[i];
      }
    }
  }

  lemma UsesInMember(scenario: Scenario, use: Use)
    ensures use in UsesIn(scenario) <==> scenario.id == use.scenarioId && use.channel in scenario.entryChannels
  {
    if scenario.id == use.scenarioId && use.channel in scenario.entryChannels {
      var k :| 0 <= k < |scenario.entryChannels| && scenario.entryChannels[k] == use.channel;
      assert UsesIn(scenario)[k] == use;
    }
  }

  /** Two scenarios with different ids list the same channel. */
  predicate ChannelShared(scenarios: seq<Scenario>) {
    exists i, j :: 0 <= i < |scenarios| && 0 <= j < |scenarios| && scenarios[i].id != scenarios[j].id &&
                   exists c :: c in scenarios[i].entryChannels && c in scenarios[j].entryChannels
  }

  lemma SharedUses(scenarios: seq<Scenario>, x: Use, y: Use)
    requires x in UsesOf(scenarios) && y in UsesOf(scenarios)
    requires x.channel == y.channel && x.scenarioId != y.scenarioId
    ensures ChannelShared(scenarios)
  {
    UsesOfMember(scenarios, x);
    UsesOfMember(scenarios, y);
    hide UsesOf;
    var a :| 0 <= a < |scenarios| && scenarios[a].id == x.scenarioId && x.channel in scenarios[a].entryChannels;
    var b :| 0 <= b < |scenarios| && scenarios[b].id == y.scenarioId && y.channel in scenarios[b].entryChannels;
  }

  lemma SharedScenarios(scenarios: seq<Scenario>)
    requires ChannelShared(scenarios)
    ensures !ChannelsUnshared(UsesOf(scenarios))
  {
    var a, b :| 0 <= a < |scenarios| && 0 <= b < |scenarios| && scenarios[a].id != scenarios[b].id &&
                exists c :: c in scenarios[a].entryChannels && c in scenarios[b].entryChannels;
    var c :| c in scenarios[a].entryChannels && c in scenarios[b].entryChannels;
    UsesOfMember(scenarios, Use(c, scenarios[a].id));
    UsesOfMember(scenarios, Use(c, scenarios[b].id));
    hide ChannelShared, UsesOf;
    var uses := UsesOf(scenarios);
    var i :| 0 <= i < |uses| && uses[i] == Use(c, scenarios[a].id);
    var j :| 0 <= j < |uses| && uses[j] == Use(c, scenarios[b].id);
  }

  lemma ChannelsUnsharedIff(scenarios: seq<Scenario>)
    ensures ChannelsUnshared(UsesOf(scenarios)) <==> !ChannelShared(scenarios)
  {
    hide ChannelShared, UsesOf;
    var uses := UsesOf(scenarios);
    if ChannelShared(scenarios) {
      SharedScenarios(scenarios);
    } else {
      forall i, j | 0 <= i < |uses| && 0 <= j < |uses| && uses[i].channel == uses[j].channel
        ensures uses[i].scenarioId == uses[j].scenarioId
      {
        if uses[i].scenarioId != uses[j].scenarioId {
          SharedUses(scenarios, uses[i], uses[j]);
        }
      }
    }
  }

  /** A channel conflict is reported exactly when two different scenarios list the same channel. */
  lemma ConflictReportedIff(doc: Document)
    ensures ChannelIssues(UsesOf(doc.scenarios)) != [] <==> ChannelShared(doc.scenarios)
  {
    ChannelIssuesIff(UsesOf(doc.scenarios));
    ChannelsUnsharedIff(doc.scenarios);
  }

  // ----- valid reports -----

  /** What a document needs to be published, said of the document itself. */
  predicate PublishReady(doc: Document) {
    && (forall i :: 0 <= i < |Steps(doc)| ==>
          && ShapeSound(Steps(doc)[i])
          && forall k :: 0 <= k < |Steps(doc)[i].factRequirements| ==>
               Steps(doc)[i].factRequirements[k].name in FactNames(doc))
    && !HasDuplicates(TransitionIds(PlacedSteps(doc.scenarios)))
    && (forall i :: 0 <= i < |doc.factSchema| ==> !doc.factSchema[i].workflowScope)
    && !ChannelShared(doc.scenarios)
  }

  lemma StepSectionIff(doc: Document, reachable: set<string>)
    requires Constructed(doc)
    ensures var ctx := Context(FactNames(doc), StepIds(doc), reachable);
            NoErrors(AllStepIssues(ctx, PlacedSteps(doc.scenarios))) <==>
            && (forall i :: 0 <= i < |Steps(doc)| ==>
                  && ShapeSound(Steps(doc)[i])
                  && forall k :: 0 <= k < |Steps(doc)[i].factRequirements| ==>
                       Steps(doc)[i].factRequirements[k].name in FactNames(doc))
            && !HasDuplicates(TransitionIds(PlacedSteps(doc.scenarios)))
  {
    var ctx := Context(FactNames(doc), StepIds(doc), reachable);
    var placed := PlacedSteps(doc.scenarios);
    ConstructedIds(doc);
    PlacedFollows(doc.scenarios);
    AllStepIssuesIff(ctx, placed);
    DistinctByCount(TransitionIds(placed));
    hide Constructed, AllStepIssues, ShapeSound, FactNames, StepIds, Distinct, TransitionIds, PlacedSteps, StepsOf,
         NoErrors;
    forall i | 0 <= i < |placed|
      ensures TargetsIn(ctx, placed[i].1.transitions)
    {
      assert placed[i].1 == Steps(doc)[i];
    }
    assert forall i :: 0 <= i < |placed| ==>
        (StepSound(ctx, placed[i].1) <==>
         ShapeSound(Steps(doc)[i]) && FactsDefined(ctx, Steps(doc)[i].factRequirements));
  }

  lemma EmptyNoErrors()
    ensures NoErrors([])
  {
  }

  lemma ExitNoErrors(doc: Document)
    ensures NoErrors(ExitIssues(doc))
  {
  }

  /** A constructed document's report is valid exactly when the document is ready to publish. */
  lemma ValidIffReady(doc: Document, reachable: set<string>)
    requires Constructed(doc)
    ensures ReportOf(doc, reachable).valid <==> PublishReady(doc)
  {
    var a := AllStepIssues(Context(FactNames(doc), StepIds(doc), reachable), PlacedSteps(doc.scenarios));
    var b := WorkflowIssues(doc.factSchema);
    var c := RouteIssues(SortByRank(doc.scenarioRoutes, RouteRank), ToSet(ScenarioIdsOf(doc.scenarios)));
    var d := ChannelIssues(UsesOf(doc.scenarios));
    var e := ExitIssues(doc);
    hide Constructed, NoErrors, AllStepIssues, WorkflowIssues, RouteIssues, ChannelIssues, ExitIssues, CountSeverity;
    hide SortByRank, ShapeSound, FactNames, StepIds, TransitionIds, PlacedSteps, ChannelShared, HasDuplicates, Steps;
    ErrorCountZero(AllIssues(doc, reachable));
    StepSectionIff(doc, reachable);
    WorkflowIssuesIff(doc.factSchema);
    ConstructedRoutesClean(doc);
    EmptyNoErrors();
    ExitNoErrors(doc);
    ChannelIssuesIff(UsesOf(doc.scenarios));
    ConflictReportedIff(doc);
    NoErrorsConcat(a, b);
    NoErrorsConcat(a + b, c);
    NoErrorsConcat(a + b + c, d);
    NoErrorsConcat(a + b + c + d, e);
  }

  // ----- running a published document -----

  /** A finite run: from the start step along transitions. */
  ghost predicate TransitionWalk(doc: Document, walk: seq<string>) {
    && walk != []
    && StartStepId(doc) == Some(walk[0])
    && forall i :: 0 <= i < |walk| - 1 ==> Leads(doc, walk[i], walk[i + 1])
  }

  predicate Leads(doc: Document, from: string, to: string) {
    StepById(doc, from).Some? && to in TransitionTargets(StepById(doc, from).value)
  }

  /** In a constructed document a transition is one of the moves the search follows. */
  lemma LeadsIsEdge(doc: Document, from: string, to: string)
    requires Constructed(doc) && Leads(doc, from, to)
    ensures Edge(doc, from, to)
  {
    StepByIdKnown(doc, from);
    SuccessorsKnown(doc, from);
    SuccessorsUnfold(doc, from);
  }

  lemma WalkIsPath(doc: Document, walk: seq<string>)
    requires Constructed(doc) && TransitionWalk(doc, walk)
    ensures Path(doc, walk)
  {
    hide Constructed, Edge, Leads, StartStepId;
    forall i | 0 <= i < |walk| - 1
      ensures Edge(doc, walk[i], walk[i + 1])
    {
      LeadsIsEdge(doc, walk[i], walk[i + 1]);
    }
  }

  /**
   No run of a validly reported document gets stuck: every finite run stays inside the reachable set and
   either can take another step or stands on a completion or handoff step, which has no way on.
   */
  lemma NoRunGetsStuck(doc: Document, walk: seq<string>)
    requires Constructed(doc) && ReportOf(doc, ReachableSet(doc)).valid
    requires TransitionWalk(doc, walk)
    ensures forall i :: 0 <= i < |walk| ==> walk[i] in ReachableSet(doc)
    ensures var here := StepById(doc, walk[|walk| - 1]);
            && here.Some?
            && (Terminal(here.value) <==> !exists next :: TransitionWalk(doc, walk + [next]))
  {
    assert walk != [];
    hide Constructed, ReportOf, ReachableSet, TransitionWalk;
    forall i | 0 <= i < |walk|
      ensures walk[i] in ReachableSet(doc)
    {
      WalkStaysReachable(doc, walk, i);
    }
    var last := walk[|walk| - 1];
    ReadyStepSound(doc, last);
    LastStepMoves(doc, walk, StepById(doc, last).value);
  }

  lemma WalkStaysReachable(doc: Document, walk: seq<string>, i: nat)
    requires Constructed(doc) && TransitionWalk(doc, walk) && i < |walk|
    ensures walk[i] in ReachableSet(doc)
  {
    hide Constructed, Leads, StartStepId, StepIds;
    var part := walk[..i + 1];
    forall k | 0 <= k < |part| - 1
      ensures Leads(doc, part[k], part[k + 1])
    {
      assert Leads(doc, walk[k], walk[k + 1]);
    }
    WalkIsPath(doc, part);
    assert Path(doc, part) && part[|part| - 1] == walk[i];
    ConstructedNeverStuck(doc);
  }

  lemma ReadyStepSound(doc: Document, id: string)
    requires Constructed(doc) && ReportOf(doc, ReachableSet(doc)).valid && id in ReachableSet(doc)
    ensures StepById(doc, id).Some? && ShapeSound(StepById(doc, id).value)
  {
    ValidIffReady(doc, ReachableSet(doc));
    StepByIdKnown(doc, id);
    hide Constructed, ReportOf, StepIds, StepById, Steps, ShapeSound, TransitionIds, PlacedSteps, ChannelShared,
         Reachable;
    var step := StepById(doc, id).value;
    var n :| 0 <= n < |Steps(doc)| && Steps(doc)[n] == step;
  }

  /** A run can be extended exactly when its last step has a transition. */
  lemma LastStepMoves(doc: Document, walk: seq<string>, step: Step)
    requires TransitionWalk(doc, walk) && StepById(doc, walk[|walk| - 1]) == Some(step)
    ensures (exists next :: TransitionWalk(doc, walk + [next])) <==> step.transitions != []
  {
    hide StartStepId, StepById;
    if next :| TransitionWalk(doc, walk + [next]) {
      var longer := walk + [next];
      assert Leads(doc, longer[|walk| - 1], longer[|walk| - 1 + 1]);
    }
    if step.transitions != [] {
      var next := TransitionTargets(step)[0];
      var longer := walk + [next];
      assert next in TransitionTargets(step);
      forall i | 0 <= i < |longer| - 1
        ensures Leads(doc, longer[i], longer[i + 1])
      {
        if i < |walk| - 1 {
          assert Leads(doc, walk[i], walk[i + 1]);
        }
      }
      assert TransitionWalk(doc, longer);
    }
  }

  /** A single completion step is already a document that passes construction, reports valid and runs. */
  lemma OneStepDocumentRuns(step: Step, doc: Document)
    requires step.transitions == [] && step.factRequirements == []
    requires step.completion.Some? && step.handoff.None? && step.actionConfig.None?
    requires doc == Document("main", [Scenario("main", step.id, [step], 0, [])], [], [])
    ensures Constructed(doc) && ReportOf(doc, ReachableSet(doc)).valid && TransitionWalk(doc, [step.id])
  {
    hide ReportOf, ReachableSet;
    StepsOfSnoc(doc.scenarios);
    assert doc.scenarios[..0] == [] && Steps(doc) == [step];
    assert PlacedSteps(doc.scenarios) == [("main", step)] by { assert doc.scenarios[..0] == []; }
    OneStepConstructed(step, doc);
    assert TransitionIds([("main", step)]) == [] by { assert [("main", step)][..0] == []; }
    assert PublishReady(doc);
    ValidIffReady(doc, ReachableSet(doc));
  }

  lemma OneStepConstructed(step: Step, doc: Document)
    requires step.transitions == [] && step.handoff.None? && step.actionConfig.None? && Steps(doc) == [step]
    requires doc == Document("main", [Scenario("main", step.id, [step], 0, [])], [], [])
    ensures Constructed(doc)
  {
    RoutingAcceptedIff(step);
    assert doc.scenarios[0].steps[0] == step;
    assert StepAccepted(step);
    ValidateDocumentIff(doc);
  }
}

/**
 What a publish report says about the document it was made from.
 */
module PublishTheorems {
  import opened Basics
  import opened Ordering
  import opened PythonDict
  import opened AgentDocument
  import opened Reachability
  import opened PublishValidation
  import opened PublishReadiness

  // ----- counting -----

  function Count(issues: seq<Issue>, code: Code): nat {
    if issues == [] then 0
    else Count(issues[..|issues| - 1], code) + (if issues[|issues| - 1].code == code then 1 else 0)
  }

  lemma {:induction false} CountConcat(a: seq<Issue>, b: seq<Issue>, code: Code)
    ensures Count(a + b, code) == Count(a, code) + Count(b, code)
  {
    if b == [] {
      assert a + b == a;
    } else {
      CountConcat(a, b[..|b| - 1], code);
      assert (a + b)[..|a + b| - 1] == a + b[..|b| - 1];
    }
  }

  predicate Never(issues: seq<Issue>, code: Code) {
    forall i :: 0 <= i < |issues| ==> issues[i].code != code
  }

  lemma {:induction false} CountZero(issues: seq<Issue>, code: Code)
    ensures Count(issues, code) == 0 <==> Never(issues, code)
  {
    if issues != [] {
      CountZero(issues[..|issues| - 1], code);
    }
  }

  /** Every issue is an error or a warning. */
  lemma {:induction false} SeveritiesPartition(issues: seq<Issue>)
    ensures CountSeverity(issues, Error) + CountSeverity(issues, Warning) == |issues|
  {
    if issues != [] {
      SeveritiesPartition(issues[..|issues| - 1]);
    }
  }

  // ----- which section produces which code -----

  lemma {:induction false} FactCodes(ctx: Context, scenarioId: string, step: Step, requirements: seq<FactRequirement>)
    ensures forall i :: 0 <= i < |FactIssues(ctx, scenarioId, step, requirements)| ==>
              FactIssues(ctx, scenarioId, step, requirements)[i].code == StepFactMissingDefinition
  {
    if requirements != [] {
      FactCodes(ctx, scenarioId, step, requirements[..|requirements| - 1]);
    }
  }

  lemma {:induction false} ToolCodes(scenarioId: string, step: Step, policy: seq<ToolBinding>)
    ensures forall i :: 0 <= i < |ToolIssues(scenarioId, step, policy)| ==>
              ToolIssues(scenarioId, step, policy)[i].code == StepDuplicateToolBinding
              && ToolIssues(scenarioId, step, policy)[i].severity == Warning
  {
    if policy != [] {
      ToolCodes(scenarioId, step, policy[..|policy| - 1]);
    }
  }

  predicate IsTransitionCode(code: Code) {
    code == TransitionDuplicateId || code == TransitionUnknownTarget
  }

  lemma {:induction false} TransitionCodes(ctx: Context, scenarioId: string, step: Step, ts: seq<Transition>,
                                           earlier: seq<string>)
    ensures forall i :: 0 <= i < |TransitionIssues(ctx, scenarioId, step, ts, earlier)| ==>
              IsTransitionCode(TransitionIssues(ctx, scenarioId, step, ts, earlier)[i].code)
  {
    if ts != [] {
      TransitionCodes(ctx, scenarioId, step, ts[..|ts| - 1], earlier);
    }
  }

  /** A step's transition codes come from its transitions alone. */
  lemma StepTransitionCount(ctx: Context, scenarioId: string, step: Step, earlier: seq<string>, code: Code)
    requires IsTransitionCode(code)
    ensures Count(StepIssues(ctx, scenarioId, step, earlier), code) ==
            Count(TransitionIssues(ctx, scenarioId, step, step.transitions, earlier), code)
  {
    var a := ReachIssues(ctx, scenarioId, step);
    var b := ShapeIssues(scenarioId, step);
    var c := ActionFactIssues(ctx, scenarioId, step);
    var d := ToolIssues(scenarioId, step, step.toolPolicy);
    var e := FactIssues(ctx, scenarioId, step, step.factRequirements);
    var f := TransitionIssues(ctx, scenarioId, step, step.transitions, earlier);
    FactCodes(ctx, scenarioId, step, step.factRequirements);
    ToolCodes(scenarioId, step, step.toolPolicy);
    assert Never(a, code) && Never(b, code) && Never(c, code) && Never(d, code) && Never(e, code);
    hide ReachIssues, ShapeIssues, ActionFactIssues, ToolIssues, FactIssues, TransitionIssues, Count, Never;
    CountZero(a, code);
    CountZero(b, code);
    CountZero(c, code);
    CountZero(d, code);
    CountZero(e, code);
    CountConcat(a, b, code);
    CountConcat(a + b, c, code);
    CountConcat(a + b + c, d, code);
    CountConcat(a + b + c + d, e, code);
    CountConcat(a + b + c + d + e, f, code);
  }

  /** A step reports itself unreachable at most once, and only when it is. */
  lemma StepUnreachableCount(ctx: Context, scenarioId: string, step: Step, earlier: seq<string>)
    ensures Count(StepIssues(ctx, scenarioId, step, earlier), StepUnreachable) ==
            if step.id in ctx.reachable then 0 else 1
  {
    var code := StepUnreachable;
    var a := ReachIssues(ctx, scenarioId, step);
    var b := ShapeIssues(scenarioId, step);
    var c := ActionFactIssues(ctx, scenarioId, step);
    var d := ToolIssues(scenarioId, step, step.toolPolicy);
    var e := FactIssues(ctx, scenarioId, step, step.factRequirements);
    var f := TransitionIssues(ctx, scenarioId, step, step.transitions, earlier);
    FactCodes(ctx, scenarioId, step, step.factRequirements);
    ToolCodes(scenarioId, step, step.toolPolicy);
    TransitionCodes(ctx, scenarioId, step, step.transitions, earlier);
    assert Count(a, code) == if step.id in ctx.reachable then 0 else 1;
    assert Never(b, code) && Never(c, code) && Never(d, code) && Never(e, code) && Never(f, code);
    hide ReachIssues, ShapeIssues, ActionFactIssues, ToolIssues, FactIssues, TransitionIssues, Count, Never;
    CountZero(b, code);
    CountZero(c, code);
    CountZero(d, code);
    CountZero(e, code);
    CountZero(f, code);
    CountConcat(a, b, code);
    CountConcat(a + b, c, code);
    CountConcat(a + b + c, d, code);
    CountConcat(a + b + c + d, e, code);
    CountConcat(a + b + c + d + e, f, code);
  }

  // ----- duplicated transition ids -----

  /** Within one step: one duplicate issue for each transition id that does not add to the ids seen. */
  lemma {:induction false} TransitionDuplicateCount(ctx: Context, scenarioId: string, step: Step, ts: seq<Transition>,
                                                    earlier: seq<string>)
    ensures Count(TransitionIssues(ctx, scenarioId, step, ts, earlier), TransitionDuplicateId)
            == |ts| + |ToSet(earlier)| - |ToSet(earlier + TransitionIdsOf(ts))|
  {
    if ts == [] {
      assert earlier + TransitionIdsOf(ts) == earlier;
    } else {
      var init, last := ts[..|ts| - 1], ts[|ts| - 1];
      var seen := earlier + TransitionIdsOf(init);
      TransitionDuplicateCount(ctx, scenarioId, step, init, earlier);
      assert earlier + TransitionIdsOf(ts) == seen + [last.id];
      assert ToSet(seen + [last.id]) == ToSet(seen) + {last.id};
      CountConcat(TransitionIssues(ctx, scenarioId, step, init, earlier),
                  TransitionIssue(ctx, scenarioId, step, last, seen), TransitionDuplicateId);
      OneTransitionCount(ctx, scenarioId, step, last, seen);
    }
  }

  lemma OneTransitionCount(ctx: Context, scenarioId: string, step: Step, t: Transition, earlier: seq<string>)
    ensures Count(TransitionIssue(ctx, scenarioId, step, t, earlier), TransitionDuplicateId) ==
            if t.id in earlier then 1 else 0
    ensures Count(TransitionIssue(ctx, scenarioId, step, t, earlier), TransitionUnknownTarget) ==
            if t.toStepId in ctx.stepIds then 0 else 1
  {
    var a := if t.id in earlier then [StepIssue(Error, TransitionDuplicateId, scenarioId, step, Some(t.id))] else [];
    var b := if t.toStepId in ctx.stepIds then []
             else [StepIssue(Error, TransitionUnknownTarget, scenarioId, step, Some(t.id))];
    CountConcat(a, b, TransitionDuplicateId);
    CountConcat(a, b, TransitionUnknownTarget);
  }

  lemma {:induction false} DocumentDuplicateCount(ctx: Context, placed: seq<Placed>)
    ensures Count(AllStepIssues(ctx, placed), TransitionDuplicateId) ==
            |TransitionIds(placed)| - |ToSet(TransitionIds(placed))|
  {
    if placed != [] {
      var init, last := placed[..|placed| - 1], placed[|placed| - 1];
      var earlier := TransitionIds(init);
      DocumentDuplicateCount(ctx, init);
      StepTransitionCount(ctx, last.0, last.1, earlier, TransitionDuplicateId);
      TransitionDuplicateCount(ctx, last.0, last.1, last.1.transitions, earlier);
      hide StepIssues, TransitionIssues, Count;
      CountConcat(AllStepIssues(ctx, init), StepIssues(ctx, last.0, last.1, earlier), TransitionDuplicateId);
    }
  }

  // ----- unreachable steps -----

  function PlacedIds(placed: seq<Placed>): seq<string> {
    seq(|placed|, i requires 0 <= i < |placed| => placed[i].1.id)
  }

  function Outside(ids: seq<string>, members: set<string>): nat {
    if ids == [] then 0
    else Outside(ids[..|ids| - 1], members) + (if ids[|ids| - 1] in members then 0 else 1)
  }

  lemma {:induction false} UnreachableCount(ctx: Context, placed: seq<Placed>)
    ensures Count(AllStepIssues(ctx, placed), StepUnreachable) == Outside(PlacedIds(placed), ctx.reachable)
  {
    if placed != [] {
      var init, last := placed[..|placed| - 1], placed[|placed| - 1];
      UnreachableCount(ctx, init);
      StepUnreachableCount(ctx, last.0, last.1, TransitionIds(init));
      assert PlacedIds(placed)[..|placed| - 1] == PlacedIds(init);
      hide StepIssues, Count;
      CountConcat(AllStepIssues(ctx, init), StepIssues(ctx, last.0, last.1, TransitionIds(init)), StepUnreachable);
    }
  }

  lemma DistinctLast(ids: seq<string>)
    requires Distinct(ids) && ids != []
    ensures Distinct(ids[..|ids| - 1]) && ids[|ids| - 1] !in ToSet(ids[..|ids| - 1])
    ensures ToSet(ids) == ToSet(ids[..|ids| - 1]) + {ids[|ids| - 1]}
  {
    assert ids == ids[..|ids| - 1] + [ids[|ids| - 1]];
  }

  lemma IntersectOne(a: set<string>, x: string, members: set<string>)
    requires x !in a
    ensures |(a + {x}) * members| == |a * members| + if x in members then 1 else 0
  {
    assert (a + {x}) * members == if x in members then a * members + {x} else a * members;
  }

  /** Of distinct ids, those outside a subset of them number the difference. */
  lemma {:induction false} OutsideCount(ids: seq<string>, members: set<string>)
    requires Distinct(ids)
    ensures Outside(ids, members) == |ids| - |ToSet(ids) * members|
  {
    if ids == [] {
      assert ToSet(ids) * members == {};
    } else {
      DistinctLast(ids);
      hide Distinct, ToSet;
      var init, last := ids[..|ids| - 1], ids[|ids| - 1];
      OutsideCount(init, members);
      IntersectOne(ToSet(init), last, members);
    }
  }

  // ----- the whole report -----

  lemma {:induction false} WorkflowCodes(facts: seq<FactDef>)
    ensures forall i :: 0 <= i < |WorkflowIssues(facts)| ==>
            WorkflowIssues(facts)[i].code == FactWorkflowStorageUnavailable
  {
    if facts != [] {
      WorkflowCodes(facts[..|facts| - 1]);
    }
  }

  predicate IsRouteCode(code: Code) {
    code == RouteDuplicateId || code == RouteUnknownSource || code == RouteUnknownTarget
  }

  lemma {:induction false} RouteCodes(routes: seq<ScenarioRoute>, ids: set<string>)
    ensures forall i :: 0 <= i < |RouteIssues(routes, ids)| ==> IsRouteCode(RouteIssues(routes, ids)[i].code)
  {
    if routes != [] {
      RouteCodes(routes[..|routes| - 1], ids);
    }
  }

  lemma {:induction false} ChannelCodes(uses: seq<Use>)
    ensures forall i :: 0 <= i < |ChannelIssues(uses)| ==> ChannelIssues(uses)[i].code == EntryChannelConflict
  {
    if uses != [] {
      ChannelCodes(uses[..|uses| - 1]);
    }
  }

  predicate IsStepCode(code: Code) {
    && code != FactWorkflowStorageUnavailable && !IsRouteCode(code)
    && code != EntryChannelConflict && code != ExitPathMissing
  }

  /** The codes about steps and transitions come from the step section alone. */
  lemma StepSectionCount(doc: Document, reachable: set<string>, code: Code)
    requires IsStepCode(code)
    ensures Count(AllIssues(doc, reachable), code) ==
            Count(AllStepIssues(Context(FactNames(doc), StepIds(doc), reachable), PlacedSteps(doc.scenarios)), code)
  {
    var a := AllStepIssues(Context(FactNames(doc), StepIds(doc), reachable), PlacedSteps(doc.scenarios));
    var b := WorkflowIssues(doc.factSchema);
    var c := RouteIssues(SortByRank(doc.scenarioRoutes, RouteRank), ToSet(ScenarioIdsOf(doc.scenarios)));
    var d := ChannelIssues(UsesOf(doc.scenarios));
    var e := ExitIssues(doc);
    WorkflowCodes(doc.factSchema);
    RouteCodes(SortByRank(doc.scenarioRoutes, RouteRank), ToSet(ScenarioIdsOf(doc.scenarios)));
    ChannelCodes(UsesOf(doc.scenarios));
    hide AllStepIssues, WorkflowIssues, RouteIssues, ChannelIssues, SortByRank, Count;
    assert Never(b, code) && Never(c, code) && Never(d, code) && Never(e, code);
    hide ExitIssues, Never;
    CountZero(b, code);
    CountZero(c, code);
    CountZero(d, code);
    CountZero(e, code);
    CountConcat(a, b, code);
    CountConcat(a + b, c, code);
    CountConcat(a + b + c, d, code);
    CountConcat(a + b + c + d, e, code);
  }

  /** Duplicate-id issues number the transitions less the distinct transition ids, on any document. */
  lemma DuplicateIdAccounting(doc: Document, reachable: set<string>)
    ensures Count(AllIssues(doc, reachable), TransitionDuplicateId) ==
            |TransitionIds(PlacedSteps(doc.scenarios))| - |ToSet(TransitionIds(PlacedSteps(doc.scenarios)))|
  {
    StepSectionCount(doc, reachable, TransitionDuplicateId);
    DocumentDuplicateCount(Context(FactNames(doc), StepIds(doc), reachable), PlacedSteps(doc.scenarios));
  }

  /** Unreachable-step issues number the steps less the reachable ones. */
  lemma UnreachableAccounting(doc: Document)
    requires Constructed(doc)
    ensures Count(AllIssues(doc, ReachableSet(doc)), StepUnreachable) == |Steps(doc)| - |ReachableSet(doc)|
  {
    var placed := PlacedSteps(doc.scenarios);
    var reachable := ReachableSet(doc);
    assert reachable <= StepIds(doc) by {
      hide Steps, Reachable, Constructed;
    }
    hide Constructed, ReachableSet, AllIssues, PlacedIds, Count, Outside, Distinct, Steps, Reachable;
    PlacedIdsAre(doc);
    ConstructedIds(doc);
    StepSectionCount(doc, reachable, StepUnreachable);
    UnreachableCount(Context(FactNames(doc), StepIds(doc), reachable), placed);
    OutsideCount(IdsOf(Steps(doc)), reachable);
    assert StepIds(doc) * reachable == reachable;
  }

  lemma PlacedIdsAre(doc: Document)
    ensures PlacedIds(PlacedSteps(doc.scenarios)) == IdsOf(Steps(doc))
  {
    PlacedFollows(doc.scenarios);
  }

  // ----- codes a constructed document never gets -----

  lemma {:induction false} NoUnknownTargets(ctx: Context, placed: seq<Placed>)
    requires forall i :: 0 <= i < |placed| ==> TargetsIn(ctx, placed[i].1.transitions)
    ensures Count(AllStepIssues(ctx, placed), TransitionUnknownTarget) == 0
  {
    if placed != [] {
      var init, last := placed[..|placed| - 1], placed[|placed| - 1];
      var earlier := TransitionIds(init);
      NoUnknownTargets(ctx, init);
      StepTransitionCount(ctx, last.0, last.1, earlier, TransitionUnknownTarget);
      NoUnknownTargetsIn(ctx, last.0, last.1, last.1.transitions, earlier);
      hide StepIssues, TransitionIssues, Count, TargetsIn;
      CountConcat(AllStepIssues(ctx, init), StepIssues(ctx, last.0, last.1, earlier), TransitionUnknownTarget);
    }
  }

  lemma {:induction false} NoUnknownTargetsIn(ctx: Context, scenarioId: string, step: Step, ts: seq<Transition>,
                                              earlier: seq<string>)
    requires TargetsIn(ctx, ts)
    ensures Count(TransitionIssues(ctx, scenarioId, step, ts, earlier), TransitionUnknownTarget) == 0
  {
    if ts != [] {
      var init, last := ts[..|ts| - 1], ts[|ts| - 1];
      NoUnknownTargetsIn(ctx, scenarioId, step, init, earlier);
      OneTransitionCount(ctx, scenarioId, step, last, earlier + TransitionIdsOf(init));
      CountConcat(TransitionIssues(ctx, scenarioId, step, init, earlier),
                  TransitionIssue(ctx, scenarioId, step, last, earlier + TransitionIdsOf(init)),
                  TransitionUnknownTarget);
    }
  }

  /**
   Unknown transition targets, unknown route ends and repeated route ids are never reported once construction
   passed.
   */
  lemma ConstructionRulesOut(doc: Document, reachable: set<string>)
    requires Constructed(doc)
    ensures Count(AllIssues(doc, reachable), TransitionUnknownTarget) == 0
    ensures Count(AllIssues(doc, reachable), RouteUnknownSource) == 0
    ensures Count(AllIssues(doc, reachable), RouteUnknownTarget) == 0
    ensures Count(AllIssues(doc, reachable), RouteDuplicateId) == 0
  {
    var ctx := Context(FactNames(doc), StepIds(doc), reachable);
    var placed := PlacedSteps(doc.scenarios);
    ConstructedIds(doc);
    PlacedFollows(doc.scenarios);
    ConstructedRoutesClean(doc);
    StepSectionCount(doc, reachable, TransitionUnknownTarget);
    hide Constructed, AllIssues, Count;
    forall i | 0 <= i < |placed|
      ensures TargetsIn(ctx, placed[i].1.transitions)
    {
      assert placed[i].1 == Steps(doc)[i];
    }
    NoUnknownTargets(ctx, placed);
    NoRouteCodes(doc, reachable, RouteUnknownSource);
    NoRouteCodes(doc, reachable, RouteUnknownTarget);
    NoRouteCodes(doc, reachable, RouteDuplicateId);
  }

  lemma StepCodes(ctx: Context, scenarioId: string, step: Step, earlier: seq<string>, code: Code)
    requires !IsStepCode(code)
    ensures Never(StepIssues(ctx, scenarioId, step, earlier), code)
  {
    FactCodes(ctx, scenarioId, step, step.factRequirements);
    ToolCodes(scenarioId, step, step.toolPolicy);
    TransitionCodes(ctx, scenarioId, step, step.transitions, earlier);
    hide ToolIssues, FactIssues, TransitionIssues;
  }

  lemma {:induction false} StepSectionCodes(ctx: Context, placed: seq<Placed>, code: Code)
    requires !IsStepCode(code)
    ensures Never(AllStepIssues(ctx, placed), code)
  {
    if placed != [] {
      var init, last := placed[..|placed| - 1], placed[|placed| - 1];
      StepSectionCodes(ctx, init, code);
      StepCodes(ctx, last.0, last.1, TransitionIds(init), code);
      hide StepIssues, TransitionIds, IsStepCode;
    }
  }

  lemma NeverConcat(a: seq<Issue>, b: seq<Issue>, code: Code)
    ensures Never(a + b, code) <==> Never(a, code) && Never(b, code)
  {
    assert forall i :: 0 <= i < |b| ==> (a + b)[|a| + i] == b[i];
    if Never(a + b, code) {
      forall i | 0 <= i < |a|
        ensures a[i].code != code
      {
        assert (a + b)[i] == a[i];
      }
    }
  }

  /** A report is without a code exactly when each of its sections is. */
  lemma SectionsNever(doc: Document, reachable: set<string>, code: Code)
    ensures Never(AllIssues(doc, reachable), code) <==>
            && Never(AllStepIssues(Context(FactNames(doc), StepIds(doc), reachable), PlacedSteps(doc.scenarios)), code)
            && Never(WorkflowIssues(doc.factSchema), code)
            && Never(RouteIssues(SortByRank(doc.scenarioRoutes, RouteRank), ToSet(ScenarioIdsOf(doc.scenarios))), code)
            && Never(ChannelIssues(UsesOf(doc.scenarios)), code)
            && Never(ExitIssues(doc), code)
  {
    hide Never, AllStepIssues, WorkflowIssues, RouteIssues, ChannelIssues, ExitIssues, SortByRank, StepIds, PlacedSteps;
    var a := AllStepIssues(Context(FactNames(doc), StepIds(doc), reachable), PlacedSteps(doc.scenarios));
    var b := WorkflowIssues(doc.factSchema);
    var c := RouteIssues(SortByRank(doc.scenarioRoutes, RouteRank), ToSet(ScenarioIdsOf(doc.scenarios)));
    var d := ChannelIssues(UsesOf(doc.scenarios));
    NeverConcat(a, b, code);
    NeverConcat(a + b, c, code);
    NeverConcat(a + b + c, d, code);
    NeverConcat(a + b + c + d, ExitIssues(doc), code);
  }

  lemma NoRouteCodes(doc: Document, reachable: set<string>, code: Code)
    requires IsRouteCode(code)
    requires RouteIssues(SortByRank(doc.scenarioRoutes, RouteRank), ToSet(ScenarioIdsOf(doc.scenarios))) == []
    ensures Count(AllIssues(doc, reachable), code) == 0
  {
    hide AllIssues, Count, AllStepIssues, WorkflowIssues, RouteIssues, ChannelIssues, SortByRank, StepIds, PlacedSteps;
    StepSectionCodes(Context(FactNames(doc), StepIds(doc), reachable), PlacedSteps(doc.scenarios), code);
    WorkflowCodes(doc.factSchema);
    ChannelCodes(UsesOf(doc.scenarios));
    CountZero(AllIssues(doc, reachable), code);
    SectionsNever(doc, reachable, code);
  }

  /** An entry-channel conflict is in the report exactly when two different scenarios list the same channel. */
  lemma ConflictInReportIff(doc: Document, reachable: set<string>)
    ensures Count(AllIssues(doc, reachable), EntryChannelConflict) > 0 <==> ChannelShared(doc.scenarios)
  {
    hide AllIssues, Count, AllStepIssues, WorkflowIssues, RouteIssues, ChannelIssues, SortByRank, StepIds, PlacedSteps,
         ChannelShared;
    StepSectionCodes(Context(FactNames(doc), StepIds(doc), reachable), PlacedSteps(doc.scenarios),
                     EntryChannelConflict);
    WorkflowCodes(doc.factSchema);
    RouteCodes(SortByRank(doc.scenarioRoutes, RouteRank), ToSet(ScenarioIdsOf(doc.scenarios)));
    ChannelCodes(UsesOf(doc.scenarios));
    CountZero(AllIssues(doc, reachable), EntryChannelConflict);
    SectionsNever(doc, reachable, EntryChannelConflict);
    ConflictReportedIff(doc);
    var channel := ChannelIssues(UsesOf(doc.scenarios));
    assert channel != [] ==> channel[0].code == EntryChannelConflict;
  }
}

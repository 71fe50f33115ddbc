/**
 What each issue of a publish report means: an issue is in the report exactly when the document deserves it,
 said position by position about the document and without the functions that the validator's loops compute.
 */
module PublishMeaning {
  import opened Basics
  import opened Ordering
  import opened AgentDocument
  import opened Reachability
  import opened GraphMoves
  import opened PublishValidation
  import opened PublishReadiness
  import opened PublishTheorems

  // ----- what a document deserves -----

  /** A step before position `p` uses the transition id, or the step at `p` itself does before transition `m`. */
  ghost predicate UsedBefore(placed: seq<Placed>, p: nat, m: nat, id: string)
    requires p < |placed|
  {
    exists p', m' :: 0 <= p' <= p && 0 <= m' < |placed[p'].1.transitions| && (p' == p ==> m' < m) &&
      placed[p'].1.transitions[m'].id == id
  }

  ghost predicate NeedsUndefined(doc: Document, step: Step, fact: Option<string>) {
    exists k :: 0 <= k < |step.factRequirements| && fact == Some(step.factRequirements[k].name) &&
      !Defined(doc, step.factRequirements[k].name)
  }

  ghost predicate BindsTwice(step: Step, ref: Option<string>) {
    exists i, j :: 0 <= i < j < |step.toolPolicy| && step.toolPolicy[i].ref == step.toolPolicy[j].ref &&
      ref == Some(step.toolPolicy[j].ref)
  }

  ghost predicate RepeatsId(placed: seq<Placed>, p: nat, id: Option<string>)
    requires p < |placed|
  {
    exists m: nat :: m < |placed[p].1.transitions| && id == Some(placed[p].1.transitions[m].id) &&
      UsedBefore(placed, p, m, placed[p].1.transitions[m].id)
  }

  ghost predicate LeadsNowhere(doc: Document, step: Step, id: Option<string>) {
    exists m :: 0 <= m < |step.transitions| && id == Some(step.transitions[m].id) &&
      !IsStep(doc, step.transitions[m].toStepId)
  }

  ghost predicate StepDeserves(doc: Document, reachable: set<string>, placed: seq<Placed>, p: nat, x: Issue)
    requires p < |placed|
  {
    var step := placed[p].1;
    && x.scenarioId == Some(placed[p].0) && x.stepId == Some(step.id)
    && match x.code
       case StepUnreachable => x.severity == Warning && x.subject == None && step.id !in reachable
       case StepTerminalWithTransitions =>
         && x.severity == Error && x.subject == None
         && (step.completion.Some? || step.handoff.Some?) && step.transitions != []
       case StepNonTerminalWithoutTransition =>
         && x.severity == Error && x.subject == None
         && step.completion.None? && step.handoff.None? && step.transitions == []
       case StepFactMissingDefinition => x.severity == Error && NeedsUndefined(doc, step, x.subject)
       case StepDuplicateToolBinding => x.severity == Warning && BindsTwice(step, x.subject)
       case TransitionDuplicateId => x.severity == Error && RepeatsId(placed, p, x.subject)
       case TransitionUnknownTarget => x.severity == Error && LeadsNowhere(doc, step, x.subject)
       case _ => false
  }

  ghost predicate Defined(doc: Document, name: string) {
    exists i :: 0 <= i < |doc.factSchema| && doc.factSchema[i].name == name
  }

  ghost predicate IsStep(doc: Document, id: string) {
    exists i, k :: 0 <= i < |doc.scenarios| && 0 <= k < |doc.scenarios[i].steps| && doc.scenarios[i].steps[k].id == id
  }

  ghost predicate IsScenario(doc: Document, id: string) {
    exists i :: 0 <= i < |doc.scenarios| && doc.scenarios[i].id == id
  }

  ghost predicate WorkflowDeserves(doc: Document, x: Issue) {
    exists i :: 0 <= i < |doc.factSchema| && doc.factSchema[i].workflowScope &&
      x == Issue(Error, FactWorkflowStorageUnavailable, None, None, Some(doc.factSchema[i].name))
  }

  /** `routes` are the routes by priority and then id; only an earlier one makes an id a repetition. */
  ghost predicate RouteDeserves(doc: Document, routes: seq<ScenarioRoute>, j: nat, x: Issue)
    requires j < |routes|
  {
    && x.severity == Error && x.scenarioId == Some(routes[j].fromScenarioId) && x.stepId == None
    && x.subject == Some(routes[j].id)
    && match x.code
       case RouteDuplicateId => exists i :: 0 <= i < j && routes[i].id == routes[j].id
       case RouteUnknownSource => !IsScenario(doc, routes[j].fromScenarioId)
       case RouteUnknownTarget => !IsScenario(doc, routes[j].toScenarioId)
       case _ => false
  }

  ghost predicate ChannelDeserves(uses: seq<Use>, x: Issue) {
    exists a: nat, b: nat :: Clash(uses, a, b) &&
      x == Issue(Error, EntryChannelConflict, Some(uses[b].scenarioId), None, None)
  }

  /** No step of any scenario ends the conversation. */
  ghost predicate NoExit(doc: Document) {
    forall i, k :: 0 <= i < |doc.scenarios| && 0 <= k < |doc.scenarios[i].steps| ==>
      doc.scenarios[i].steps[k].completion.None? && doc.scenarios[i].steps[k].handoff.None?
  }

  ghost predicate Deserves(doc: Document, reachable: set<string>, x: Issue) {
    var placed := PlacedSteps(doc.scenarios);
    var routes := SortByRank(doc.scenarioRoutes, RouteRank);
    || (exists p: nat :: p < |placed| && StepDeserves(doc, reachable, placed, p, x))
    || WorkflowDeserves(doc, x)
    || (exists j: nat :: j < |routes| && RouteDeserves(doc, routes, j, x))
    || ChannelDeserves(UsesOf(doc.scenarios), x)
    || (NoExit(doc) && x == Issue(Warning, ExitPathMissing, None, None, None))
  }

  /** The use at `b` follows the use at `a` as the next one of its channel, by another scenario. */
  ghost predicate Clash(uses: seq<Use>, a: nat, b: nat) {
    && a < b < |uses| && uses[a].channel == uses[b].channel && uses[a].scenarioId != uses[b].scenarioId
    && forall c :: a < c < b ==> uses[c].channel != uses[b].channel
  }

  // ----- the sequences the validator walks -----

  /** The placed steps are the steps of the scenarios, each with the id of its scenario. */
  lemma {:induction false} PlacedIff(scenarios: seq<Scenario>, x: Placed)
    ensures x in PlacedSteps(scenarios) <==>
            exists i, k :: 0 <= i < |scenarios| && 0 <= k < |scenarios[i].steps| &&
              x == (scenarios[i].id, scenarios[i].steps[k])
  {
    if scenarios != [] {
      var init, last := scenarios[..|scenarios| - 1], scenarios[|scenarios| - 1];
      PlacedIff(init, x);
      assert forall i :: 0 <= i < |init| ==> init[i] == scenarios[i];
      assert PlacedSteps(scenarios) == PlacedSteps(init) + PlacedIn(last);
      if x in PlacedIn(last) {
        var k :| 0 <= k < |last.steps| && PlacedIn(last)[k] == x;
        assert scenarios[|scenarios| - 1].steps[k] == last.steps[k];
      }
      if k :| 0 <= k < |last.steps| && x == (last.id, last.steps[k]) {
        assert PlacedIn(last)[k] == x;
      }
    }
  }

  /** Steps are placed in document order: scenario after scenario, and inside a scenario as it lists them. */
  lemma {:induction false} PlacedAt(scenarios: seq<Scenario>, i: nat, k: nat)
    requires i < |scenarios| && k < |scenarios[i].steps|
    ensures |PlacedSteps(scenarios[..i + 1])| == |PlacedSteps(scenarios[..i])| + |scenarios[i].steps|
    ensures |PlacedSteps(scenarios[..i + 1])| <= |PlacedSteps(scenarios)|
    ensures PlacedSteps(scenarios)[|PlacedSteps(scenarios[..i])| + k] == (scenarios[i].id, scenarios[i].steps[k])
  {
    var init, last := scenarios[..|scenarios| - 1], scenarios[|scenarios| - 1];
    var before := PlacedSteps(scenarios[..i]);
    assert scenarios[..i + 1][..i] == scenarios[..i];
    if i == |scenarios| - 1 {
      assert scenarios[..i + 1] == scenarios;
      assert PlacedSteps(scenarios) == before + PlacedIn(last);
      assert PlacedSteps(scenarios)[|before| + k] == PlacedIn(last)[k];
    } else {
      assert init[..i] == scenarios[..i] && init[..i + 1] == scenarios[..i + 1];
      PlacedAt(init, i, k);
    }
  }

  /** The channel uses are the entries of the scenarios' lists. */
  lemma UseIff(scenarios: seq<Scenario>, use: Use)
    ensures use in UsesOf(scenarios) <==>
            exists i, k :: 0 <= i < |scenarios| && 0 <= k < |scenarios[i].entryChannels| &&
              use == Use(scenarios[i].entryChannels[k], scenarios[i].id)
  {
    UsesOfMember(scenarios, use);
    if i :| 0 <= i < |scenarios| && scenarios[i].id == use.scenarioId && use.channel in scenarios[i].entryChannels {
      var k :| 0 <= k < |scenarios[i].entryChannels| && scenarios[i].entryChannels[k] == use.channel;
      assert use == Use(scenarios[i].entryChannels[k], scenarios[i].id);
    }
  }

  /** The carried transition ids are those used before. */
  lemma {:induction false} EarlierIdsIff(placed: seq<Placed>, id: string)
    ensures id in TransitionIds(placed) <==>
            exists p, m :: 0 <= p < |placed| && 0 <= m < |placed[p].1.transitions| &&
              placed[p].1.transitions[m].id == id
  {
    if placed != [] {
      var init, last := placed[..|placed| - 1], placed[|placed| - 1];
      EarlierIdsIff(init, id);
      assert forall p :: 0 <= p < |init| ==> init[p] == placed[p];
      assert TransitionIds(placed) == TransitionIds(init) + TransitionIdsOf(last.1.transitions);
      if id in TransitionIdsOf(last.1.transitions) {
        var m :| 0 <= m < |last.1.transitions| && TransitionIdsOf(last.1.transitions)[m] == id;
        assert placed[|placed| - 1].1.transitions[m].id == id;
      }
      if m :| 0 <= m < |last.1.transitions| && last.1.transitions[m].id == id {
        assert TransitionIdsOf(last.1.transitions)[m] == id;
      }
    }
  }

  // ----- the parts of one step -----

  lemma {:induction false} FactIssueIff(ctx: Context, sid: string, step: Step, rs: seq<FactRequirement>, x: Issue)
    ensures x in FactIssues(ctx, sid, step, rs) <==>
            exists k :: 0 <= k < |rs| && rs[k].name !in ctx.factNames &&
              x == Issue(Error, StepFactMissingDefinition, Some(sid), Some(step.id), Some(rs[k].name))
  {
    if rs != [] {
      var init := rs[..|rs| - 1];
      FactIssueIff(ctx, sid, step, init, x);
      assert forall k :: 0 <= k < |init| ==> init[k] == rs[k];
    }
  }

  lemma ActionFactIn(ctx: Context, sid: string, step: Step, x: Issue)
    ensures x in ActionFactIssues(ctx, sid, step) ==> x in FactIssues(ctx, sid, step, step.factRequirements)
  {
    hide FactIssues;
  }

  lemma {:induction false} ToolIssueIff(sid: string, step: Step, policy: seq<ToolBinding>, x: Issue)
    ensures x in ToolIssues(sid, step, policy) <==>
            exists i, j :: 0 <= i < j < |policy| && policy[i].ref == policy[j].ref &&
              x == Issue(Warning, StepDuplicateToolBinding, Some(sid), Some(step.id), Some(policy[j].ref))
  {
    if policy != [] {
      var init, last := policy[..|policy| - 1], policy[|policy| - 1];
      ToolIssueIff(sid, step, init, x);
      assert forall k :: 0 <= k < |init| ==> init[k] == policy[k];
      if last.ref in RefsOf(init) {
        var i :| 0 <= i < |init| && RefsOf(init)[i] == last.ref;
        assert policy[i].ref == policy[|policy| - 1].ref;
      }
      if i :| 0 <= i < |init| && policy[i].ref == last.ref {
        assert RefsOf(init)[i] == last.ref;
      }
    }
  }

  function RefSet(policy: seq<ToolBinding>): set<string> {
    set i | 0 <= i < |policy| :: policy[i].ref
  }

  lemma RefSetSnoc(policy: seq<ToolBinding>)
    requires policy != []
    ensures RefSet(policy) == RefSet(policy[..|policy| - 1]) + {policy[|policy| - 1].ref}
    ensures policy[|policy| - 1].ref in RefsOf(policy[..|policy| - 1]) <==>
            policy[|policy| - 1].ref in RefSet(policy[..|policy| - 1])
  {
    var init, last := policy[..|policy| - 1], policy[|policy| - 1];
    forall r
      ensures r in RefSet(policy) <==> r in RefSet(init) + {last.ref}
    {
      if r in RefSet(policy) {
        var i :| 0 <= i < |policy| && policy[i].ref == r;
        assert i < |init| ==> init[i].ref == r;
      }
      if r in RefSet(init) {
        var i :| 0 <= i < |init| && init[i].ref == r;
        assert policy[i].ref == r;
      }
      assert policy[|policy| - 1].ref in RefSet(policy);
    }
    if last.ref in RefsOf(init) {
      var i :| 0 <= i < |init| && RefsOf(init)[i] == last.ref;
      assert init[i].ref == last.ref;
    }
    if last.ref in RefSet(init) {
      var i :| 0 <= i < |init| && init[i].ref == last.ref;
      assert RefsOf(init)[i] == last.ref;
    }
  }

  /** Each repetition of a ref is reported once: the issues number the bindings less the distinct refs. */
  lemma {:induction false} ToolRepeats(sid: string, step: Step, policy: seq<ToolBinding>)
    ensures |ToolIssues(sid, step, policy)| == |policy| - |RefSet(policy)|
  {
    if policy == [] {
      assert RefSet(policy) == {};
    } else {
      RefSetSnoc(policy);
      hide RefsOf, RefSet;
      var init, last := policy[..|policy| - 1], policy[|policy| - 1];
      ToolRepeats(sid, step, init);
      assert last.ref in RefSet(init) ==> RefSet(init) + {last.ref} == RefSet(init);
    }
  }

  lemma {:induction false} AllCount(issues: seq<Issue>, code: Code)
    requires forall i :: 0 <= i < |issues| ==> issues[i].code == code
    ensures Count(issues, code) == |issues|
  {
    if issues != [] {
      AllCount(issues[..|issues| - 1], code);
    }
  }

  /** The transition at `m` repeats an id, or leads nowhere, and the issue says so. */
  ghost predicate TransitionEarns(ctx: Context, sid: string, step: Step, ts: seq<Transition>, earlier: seq<string>,
                                  m: nat, x: Issue)
    requires m < |ts|
  {
    || (&& x == Issue(Error, TransitionDuplicateId, Some(sid), Some(step.id), Some(ts[m].id))
        && (ts[m].id in earlier || exists k :: 0 <= k < m && ts[k].id == ts[m].id))
    || (&& x == Issue(Error, TransitionUnknownTarget, Some(sid), Some(step.id), Some(ts[m].id))
        && ts[m].toStepId !in ctx.stepIds)
  }

  lemma {:induction false} TransitionIssueIff(ctx: Context, sid: string, step: Step, ts: seq<Transition>,
                                              earlier: seq<string>, x: Issue)
    ensures x in TransitionIssues(ctx, sid, step, ts, earlier) <==>
            exists m :: 0 <= m < |ts| && TransitionEarns(ctx, sid, step, ts, earlier, m, x)
  {
    if ts != [] {
      var init, last, n := ts[..|ts| - 1], ts[|ts| - 1], |ts| - 1;
      TransitionIssueIff(ctx, sid, step, init, earlier, x);
      LastTransitionIff(ctx, sid, step, ts, earlier, x);
      forall m | 0 <= m < n
        ensures TransitionEarns(ctx, sid, step, ts, earlier, m, x) <==>
                TransitionEarns(ctx, sid, step, init, earlier, m, x)
      {
        assert forall k :: 0 <= k <= m ==> init[k] == ts[k];
      }
      IdsListed(init, last.id);
      assert forall k :: 0 <= k < n ==> init[k] == ts[k];
      assert TransitionEarns(ctx, sid, step, ts, earlier, n, x) <==>
             || (x == Issue(Error, TransitionDuplicateId, Some(sid), Some(step.id), Some(last.id)) &&
                 last.id in earlier + TransitionIdsOf(init))
             || (x == Issue(Error, TransitionUnknownTarget, Some(sid), Some(step.id), Some(last.id)) &&
                 last.toStepId !in ctx.stepIds);
      hide TransitionEarns, TransitionIssues;
    }
  }

  lemma IdsListed(ts: seq<Transition>, id: string)
    ensures id in TransitionIdsOf(ts) <==> exists k :: 0 <= k < |ts| && ts[k].id == id
  {
    if k :| 0 <= k < |ts| && ts[k].id == id {
      assert TransitionIdsOf(ts)[k] == id;
    }
  }

  lemma LastTransitionIff(ctx: Context, sid: string, step: Step, ts: seq<Transition>, earlier: seq<string>, x: Issue)
    requires ts != []
    ensures var init, last := ts[..|ts| - 1], ts[|ts| - 1];
            x in TransitionIssues(ctx, sid, step, ts, earlier) <==>
            || x in TransitionIssues(ctx, sid, step, init, earlier)
            || (x == Issue(Error, TransitionDuplicateId, Some(sid), Some(step.id), Some(last.id)) &&
                last.id in earlier + TransitionIdsOf(init))
            || (x == Issue(Error, TransitionUnknownTarget, Some(sid), Some(step.id), Some(last.id)) &&
                last.toStepId !in ctx.stepIds)
  {
    hide TransitionIdsOf;
  }

  // ----- one step -----

  /** What a step can be reported for, said about the context and the ids used before. */
  ghost predicate StepEarns(ctx: Context, sid: string, step: Step, earlier: seq<string>, x: Issue) {
    || x in ReachIssues(ctx, sid, step) || x in ShapeIssues(sid, step)
    || x in FactIssues(ctx, sid, step, step.factRequirements) || x in ToolIssues(sid, step, step.toolPolicy)
    || x in TransitionIssues(ctx, sid, step, step.transitions, earlier)
  }

  lemma StepIssueIff(ctx: Context, sid: string, step: Step, earlier: seq<string>, x: Issue)
    ensures x in StepIssues(ctx, sid, step, earlier) <==> StepEarns(ctx, sid, step, earlier, x)
  {
    ActionFactIn(ctx, sid, step, x);
    hide ReachIssues, ShapeIssues, FactIssues, ActionFactIssues, ToolIssues, TransitionIssues;
  }

  lemma {:induction false} AllStepIssueIff(ctx: Context, placed: seq<Placed>, x: Issue)
    ensures x in AllStepIssues(ctx, placed) <==>
            exists p :: 0 <= p < |placed| &&
              StepEarns(ctx, placed[p].0, placed[p].1, TransitionIds(placed[..p]), x)
  {
    hide StepEarns, StepIssues, TransitionIds;
    if placed != [] {
      var init, last, n := placed[..|placed| - 1], placed[|placed| - 1], |placed| - 1;
      AllStepIssueIff(ctx, init, x);
      StepIssueIff(ctx, last.0, last.1, TransitionIds(init), x);
      forall p | 0 <= p < n
        ensures init[p] == placed[p] && init[..p] == placed[..p]
      {
      }
      assert placed[..n] == init;
    }
  }

  /** The same, said about the document. */
  lemma StepEarnsIff(doc: Document, reachable: set<string>, placed: seq<Placed>, p: nat, x: Issue)
    requires p < |placed|
    ensures StepEarns(Context(FactNames(doc), StepIds(doc), reachable), placed[p].0, placed[p].1,
                      TransitionIds(placed[..p]), x) <==>
            StepDeserves(doc, reachable, placed, p, x)
  {
    var ctx := Context(FactNames(doc), StepIds(doc), reachable);
    var sid, step := placed[p].0, placed[p].1;
    hide FactIssues, ToolIssues, TransitionIssues, TransitionIds, StepIds, FactNames, ReachIssues, ShapeIssues;
    FactPart(doc, ctx, sid, step, x);
    ToolPart(sid, step, x);
    TransitionPart(doc, ctx, placed, p, x);
    ReachPart(ctx, sid, step, x);
    ShapePart(sid, step, x);
    hide NeedsUndefined, BindsTwice, RepeatsId, LeadsNowhere;
  }

  lemma ReachPart(ctx: Context, sid: string, step: Step, x: Issue)
    ensures x in ReachIssues(ctx, sid, step) <==>
            x == Issue(Warning, StepUnreachable, Some(sid), Some(step.id), None) && step.id !in ctx.reachable
  {
  }

  lemma ShapePart(sid: string, step: Step, x: Issue)
    ensures x in ShapeIssues(sid, step) <==>
            || (&& x == Issue(Error, StepTerminalWithTransitions, Some(sid), Some(step.id), None)
                && (step.completion.Some? || step.handoff.Some?) && step.transitions != [])
            || (&& x == Issue(Error, StepNonTerminalWithoutTransition, Some(sid), Some(step.id), None)
                && step.completion.None? && step.handoff.None? && step.transitions == [])
  {
  }

  lemma FactPart(doc: Document, ctx: Context, sid: string, step: Step, x: Issue)
    requires ctx.factNames == FactNames(doc)
    ensures x in FactIssues(ctx, sid, step, step.factRequirements) <==>
            && x.severity == Error && x.code == StepFactMissingDefinition && x.scenarioId == Some(sid)
            && x.stepId == Some(step.id) && NeedsUndefined(doc, step, x.subject)
  {
    var rs := step.factRequirements;
    FactIssueIff(ctx, sid, step, rs, x);
    hide FactIssues;
    forall k | 0 <= k < |rs|
      ensures rs[k].name in ctx.factNames <==> Defined(doc, rs[k].name)
    {
      DefinedIff(doc, rs[k].name);
    }
    hide Defined, FactNames;
  }

  lemma DefinedIff(doc: Document, name: string)
    ensures name in FactNames(doc) <==> Defined(doc, name)
  {
    if name in FactNames(doc) {
      var f :| f in doc.factSchema && f.name == name;
      var i :| 0 <= i < |doc.factSchema| && doc.factSchema[i] == f;
    }
  }

  lemma ToolPart(sid: string, step: Step, x: Issue)
    ensures x in ToolIssues(sid, step, step.toolPolicy) <==>
            && x.severity == Warning && x.code == StepDuplicateToolBinding && x.scenarioId == Some(sid)
            && x.stepId == Some(step.id) && BindsTwice(step, x.subject)
  {
    ToolIssueIff(sid, step, step.toolPolicy, x);
    hide ToolIssues;
  }

  lemma IsStepIff(doc: Document, id: string)
    ensures id in StepIds(doc) <==> IsStep(doc, id)
  {
    if id in StepIds(doc) {
      var n :| 0 <= n < |Steps(doc)| && IdsOf(Steps(doc))[n] == id;
      StepsOfMember(doc.scenarios, Steps(doc)[n]);
      var i :| 0 <= i < |doc.scenarios| && Steps(doc)[n] in doc.scenarios[i].steps;
      var k :| 0 <= k < |doc.scenarios[i].steps| && doc.scenarios[i].steps[k] == Steps(doc)[n];
      assert doc.scenarios[i].steps[k].id == id;
    }
    if IsStep(doc, id) {
      var i: nat, k: nat :| i < |doc.scenarios| && k < |doc.scenarios[i].steps| && doc.scenarios[i].steps[k].id == id;
      var n := StepPosition(doc, i, k);
      assert IdsOf(Steps(doc))[n] == id;
    }
  }

  lemma UsedBeforeIff(placed: seq<Placed>, p: nat, m: nat, id: string)
    requires p < |placed| && m < |placed[p].1.transitions|
    ensures UsedBefore(placed, p, m, id) <==>
            id in TransitionIds(placed[..p]) || exists k :: 0 <= k < m && placed[p].1.transitions[k].id == id
  {
    var before := placed[..p];
    EarlierIdsIff(before, id);
    hide TransitionIds;
    assert forall q :: 0 <= q < p ==> before[q] == placed[q];
    if UsedBefore(placed, p, m, id) {
      var q, n :| 0 <= q <= p && 0 <= n < |placed[q].1.transitions| && (q == p ==> n < m) &&
                  placed[q].1.transitions[n].id == id;
      if q < p {
        assert before[q].1.transitions[n].id == id;
      }
    }
    if q, n :| 0 <= q < |before| && 0 <= n < |before[q].1.transitions| && before[q].1.transitions[n].id == id {
      assert placed[q].1.transitions[n].id == id;
    }
    if k :| 0 <= k < m && placed[p].1.transitions[k].id == id {
      assert placed[p].1.transitions[k].id == id;
    }
  }

  lemma TransitionPart(doc: Document, ctx: Context, placed: seq<Placed>, p: nat, x: Issue)
    requires p < |placed| && ctx.stepIds == StepIds(doc)
    ensures x in TransitionIssues(ctx, placed[p].0, placed[p].1, placed[p].1.transitions,
                                  TransitionIds(placed[..p])) <==>
            && x.severity == Error && x.scenarioId == Some(placed[p].0) && x.stepId == Some(placed[p].1.id)
            && ((x.code == TransitionDuplicateId && RepeatsId(placed, p, x.subject)) ||
                (x.code == TransitionUnknownTarget && LeadsNowhere(doc, placed[p].1, x.subject)))
  {
    var sid, step, earlier := placed[p].0, placed[p].1, TransitionIds(placed[..p]);
    var ts := step.transitions;
    TransitionIssueIff(ctx, sid, step, ts, earlier, x);
    hide TransitionIssues, TransitionIds, StepIds;
    forall m: nat | m < |ts|
      ensures TransitionEarns(ctx, sid, step, ts, earlier, m, x) <==>
              || (&& x == Issue(Error, TransitionDuplicateId, Some(sid), Some(step.id), Some(ts[m].id))
                  && UsedBefore(placed, p, m, ts[m].id))
              || (&& x == Issue(Error, TransitionUnknownTarget, Some(sid), Some(step.id), Some(ts[m].id))
                  && !IsStep(doc, ts[m].toStepId))
    {
      UsedBeforeIff(placed, p, m, ts[m].id);
      IsStepIff(doc, ts[m].toStepId);
    }
    hide TransitionEarns, UsedBefore, IsStep;
    if m: nat :| m < |ts| && TransitionEarns(ctx, sid, step, ts, earlier, m, x) {
    }
  }
}

/**
 A runtime entry read off the authored step it is for, field by field, without the compiler's functions.
 */
module EntryMeaning {
  import opened Basics
  import opened PythonText
  import opened PythonDict
  import opened AgentDocument
  import opened Reachability
  import opened GraphMoves
  import opened CompiledDocument

  /** The tools that a step leaves available: its bindings that are not blocked and name a tool, in their order. */
  lemma {:induction false} ToolRefsPicked(policy: seq<ToolBinding>)
    ensures Picks(policy, AvailableToolRefs(policy), (b: ToolBinding) => b.mode != Blocked && b.ref != "",
                  (b: ToolBinding) => b.ref)
  {
    var keep, image := (b: ToolBinding) => b.mode != Blocked && b.ref != "", (b: ToolBinding) => b.ref;
    if policy == [] {
      PicksNone(keep, image);
    } else {
      var init, last := policy[..|policy| - 1], policy[|policy| - 1];
      ToolRefsPicked(init);
      assert policy == init + [last];
      PicksSnoc(init, AvailableToolRefs(init), keep, image, last);
    }
  }

  /** The facts still missing: the required names that are not among the known ones, in their order. */
  lemma {:induction false} MissingPicked(names: seq<string>, facts: set<string>)
    ensures Picks(names, MissingFacts(names, facts), (name: string) => name !in facts, (name: string) => name)
  {
    var keep, image := (name: string) => name !in facts, (name: string) => name;
    if names == [] {
      PicksNone(keep, image);
    } else {
      var init, last := names[..|names| - 1], names[|names| - 1];
      MissingPicked(init, facts);
      assert names == init + [last];
      PicksSnoc(init, MissingFacts(init, facts), keep, image, last);
    }
  }

  /** What an entry says about its step. */
  ghost predicate Describes(entry: RuntimeEntry, step: Step, facts: set<string>) {
    && entry.currentStepId == step.id
    && (entry.flags.collectsMissingDetails <==>
        exists k :: 0 <= k < |step.factRequirements| && step.factRequirements[k].name !in facts)
    && (entry.flags.usesTooling <==>
        step.actionConfig.Some? || exists k :: 0 <= k < |step.toolPolicy| && step.toolPolicy[k].mode != Blocked)
    && (entry.flags.handsOff <==> step.handoff.Some?)
    && (entry.flags.completes <==> step.completion.Some?)
    && Picks(step.factRequirements, entry.missingFacts, (r: FactRequirement) => r.name !in facts,
             (r: FactRequirement) => r.name)
    && Picks(step.toolPolicy, entry.availableToolRefs, (b: ToolBinding) => b.mode != Blocked && b.ref != "",
             (b: ToolBinding) => b.ref)
    && |entry.transitionTargetIds| == |step.transitions|
    && (forall k :: 0 <= k < |step.transitions| ==> entry.transitionTargetIds[k] == step.transitions[k].toStepId)
    && (match step.say
        case None => entry.scriptedSay == None
        case Some(say) => entry.scriptedSay == if Strip(say) == "" then None else Some(Strip(say)))
    && entry.workloadClass == step.workloadClass && entry.executionIsolation == step.executionIsolation
  }

  lemma MissingRequirements(step: Step, facts: set<string>)
    ensures Picks(step.factRequirements, MissingFacts(RequirementNames(step), facts),
                  (r: FactRequirement) => r.name !in facts, (r: FactRequirement) => r.name)
  {
    var names, missing := RequirementNames(step), MissingFacts(RequirementNames(step), facts);
    MissingPicked(names, facts);
    var at :| PicksAt(names, missing, (name: string) => name !in facts, (name: string) => name, at);
    assert PicksAt(step.factRequirements, missing, (r: FactRequirement) => r.name !in facts,
                   (r: FactRequirement) => r.name, at);
  }

  lemma ScanDescribes(doc: Document, id: string, facts: set<string>, pendingAction: bool, pendingPermission: bool,
                      activeRepair: bool)
    requires StepById(doc, id).Some? && StepById(doc, id).value.id == id && ScenarioForStepId(doc, id).Some?
    ensures var entry := EntryByScan(doc, id, facts, pendingAction, pendingPermission, activeRepair);
            entry.Some? && Describes(entry.value, StepById(doc, id).value, facts)
  {
    hide StepById, ScenarioForStepId;
    var step := StepById(doc, id).value;
    MissingRequirements(step, facts);
    ToolRefsPicked(step.toolPolicy);
    hide Picks, MissingFacts, AvailableToolRefs, RequirementNames;
    CollectsByPosition(step, facts);
    ToolingByPosition(step);
  }

  lemma CollectsByPosition(step: Step, facts: set<string>)
    ensures (exists r :: r in step.factRequirements && r.name !in facts) <==>
            exists k :: 0 <= k < |step.factRequirements| && step.factRequirements[k].name !in facts
  {
    if r :| r in step.factRequirements && r.name !in facts {
      var k :| 0 <= k < |step.factRequirements| && step.factRequirements[k] == r;
    }
    if k :| 0 <= k < |step.factRequirements| && step.factRequirements[k].name !in facts {
      assert step.factRequirements[k] in step.factRequirements;
    }
  }

  lemma ToolingByPosition(step: Step)
    ensures UsesTooling(step) <==>
            step.actionConfig.Some? || exists k :: 0 <= k < |step.toolPolicy| && step.toolPolicy[k].mode != Blocked
  {
    if b :| b in step.toolPolicy && b.mode != Blocked {
      var k :| 0 <= k < |step.toolPolicy| && step.toolPolicy[k] == b;
    }
    if k :| 0 <= k < |step.toolPolicy| && step.toolPolicy[k].mode != Blocked {
      assert step.toolPolicy[k] in step.toolPolicy;
    }
  }

  /**
   Built from either form of a constructed document, the entry of the step at position k of scenario i describes
   that step and names that scenario; execution is pending with either of the two pending parts.
   */
  lemma EntryDescribesStep(doc: Document, any: AnyDocument, i: nat, k: nat, facts: set<string>, pendingAction: bool,
                           pendingPermission: bool, activeRepair: bool)
    requires Constructed(doc) && i < |doc.scenarios| && k < |doc.scenarios[i].steps|
    requires any == Authored(doc) || any == AlreadyCompiled(CompiledOf(doc))
    ensures var step := doc.scenarios[i].steps[k];
            var entry := BuildRuntimeEntry(any, step.id, facts, pendingAction, pendingPermission, activeRepair);
            && entry.Some? && Describes(entry.value, step, facts)
            && entry.value.currentScenarioId == doc.scenarios[i].id
            && entry.value.activeRepair == activeRepair
            && (entry.value.pendingExecution <==> pendingAction || pendingPermission)
  {
    hide Constructed, CompiledOf, StepById, ScenarioForStepId, BuildRuntimeEntry, Describes, Steps;
    var step := doc.scenarios[i].steps[k];
    RuntimeEntryRefinesScan(doc, any, step.id, facts, pendingAction, pendingPermission, activeRepair);
    var n := StepPosition(doc, i, k);
    StepFound(doc, n);
    assert HasStep(doc.scenarios[i], step.id);
    OwnerFound(doc, i, step.id);
    ScanDescribes(doc, step.id, facts, pendingAction, pendingPermission, activeRepair);
  }

  /** An id that no step has gives no entry. */
  lemma UnknownStepHasNoEntry(doc: Document, any: AnyDocument, id: string, facts: set<string>, pendingAction: bool,
                              pendingPermission: bool, activeRepair: bool)
    requires Constructed(doc) && (any == Authored(doc) || any == AlreadyCompiled(CompiledOf(doc)))
    ensures BuildRuntimeEntry(any, id, facts, pendingAction, pendingPermission, activeRepair).None? <==>
            forall i, k :: 0 <= i < |doc.scenarios| && 0 <= k < |doc.scenarios[i].steps| ==>
              doc.scenarios[i].steps[k].id != id
  {
    hide Constructed, CompiledOf, StepById, BuildRuntimeEntry, Describes, Steps;
    RuntimeEntryRefinesScan(doc, any, id, facts, pendingAction, pendingPermission, activeRepair);
    if i: nat, k: nat :| i < |doc.scenarios| && k < |doc.scenarios[i].steps| && doc.scenarios[i].steps[k].id == id {
      EntryDescribesStep(doc, any, i, k, facts, pendingAction, pendingPermission, activeRepair);
    } else {
      assert ScenarioForStepId(doc, id).None? by {
        if ScenarioForStepId(doc, id).Some? {
          OwnerOfKnown(doc.scenarios, id);
        }
      }
    }
  }
}

/**
 The publish gate on top of the report: `build_publish_readiness`, which adds the tools that are not
 registered, and `apply_publish_qualification`, which adds the evaluation blockers.
 */
module PublishGate {
  import opened Basics
  import opened Ordering
  import opened AgentDocument
  import opened Reachability
  import opened PublishValidation
  import opened PublishReadiness

  /** An entry of the review: an issue of the report, or one that the gate adds. */
  datatype ReviewItem =
    | FromIssue(issue: Issue)
    | FirstRelease
    | MissingRuntimeSpec(ref: string)
    | FromEvaluation(code: string)

  datatype Readiness = Readiness(canPublish: bool, blockers: seq<ReviewItem>, warnings: seq<ReviewItem>,
                                 availableTools: seq<string>, missingTools: seq<string>)

  /** The binding names a tool that the runtime, asked to list its tools, does not list. */
  predicate Unregistered(binding: ToolBinding, available: set<string>) {
    binding.mode != Blocked && binding.ref != "" && available != {} && binding.ref !in available
  }

  function MissingIn(policy: seq<ToolBinding>, available: set<string>): seq<string> {
    if policy == [] then []
    else
      var last := policy[|policy| - 1];
      MissingIn(policy[..|policy| - 1], available) + (if Unregistered(last, available) then [last.ref] else [])
  }

  function MissingRefs(steps: seq<Step>, available: set<string>): seq<string> {
    if steps == [] then []
    else MissingRefs(steps[..|steps| - 1], available) + MissingIn(steps[|steps| - 1].toolPolicy, available)
  }

  function WithSeverity(issues: seq<Issue>, severity: Severity): seq<ReviewItem> {
    if issues == [] then []
    else
      var last := issues[|issues| - 1];
      WithSeverity(issues[..|issues| - 1], severity) + (if last.severity == severity then [FromIssue(last)] else [])
  }

  function MissingItems(refs: seq<string>): seq<ReviewItem> {
    seq(|refs|, i requires 0 <= i < |refs| => MissingRuntimeSpec(refs[i]))
  }

  /** `build_publish_readiness`, without the version diff it attaches */
  method BuildPublishReadiness(doc: Document, report: Report, published: bool, available: set<string>)
    returns (readiness: Readiness)
    ensures var missing := SortedKeys(ToSet(MissingRefs(Steps(doc), available)));
            readiness == Readiness(
              readiness.blockers == [],
              WithSeverity(report.issues, Error) + MissingItems(missing),
              WithSeverity(report.issues, Warning) + (if published then [] else [FirstRelease]),
              SortedKeys(available), missing)
  {
    hide Unregistered, SortedKeys, WithSeverity, Steps, MissingRefs, MissingIn;
    var missing := [];
    var steps := Steps(doc);
    MissingStart(steps, available);
    for i := 0 to |steps|
      invariant missing == MissingRefs(steps[..i], available)
    {
      var policy := steps[i].toolPolicy;
      MissingStep(steps, available, i);
      assert missing == MissingRefs(steps[..i], available) + MissingIn(policy[..0], available);
      for j := 0 to |policy|
        invariant missing == MissingRefs(steps[..i], available) + MissingIn(policy[..j], available)
      {
        MissingNext(policy, available, j);
        if policy[j].mode == Blocked {
          BlockedIsSkipped(policy[j], available);
          continue;
        }
        NotBlocked(policy[j], available);
        if policy[j].ref != "" && available != {} && policy[j].ref !in available {
          missing := missing + [policy[j].ref];
        }
      }
    }
    assert steps[..|steps|] == steps;
    var blockers := WithSeverity(report.issues, Error);
    var warnings := WithSeverity(report.issues, Warning);
    if !published {
      warnings := warnings + [FirstRelease];
    }
    var refs := SortedKeys(ToSet(missing));
    if missing != [] {
      blockers := blockers + MissingItems(refs);
    } else {
      NothingMissing();
      assert blockers + MissingItems(refs) == blockers;
    }
    return Readiness(blockers == [], blockers, warnings, SortedKeys(available), refs);
  }

  lemma MissingStart(steps: seq<Step>, available: set<string>)
    ensures MissingRefs(steps[..0], available) == []
  {
  }

  lemma MissingStep(steps: seq<Step>, available: set<string>, i: nat)
    requires i < |steps|
    ensures var policy := steps[i].toolPolicy;
            && MissingIn(policy[..0], available) == []
            && MissingRefs(steps[..i + 1], available) ==
               MissingRefs(steps[..i], available) + MissingIn(policy[..|policy|], available)
  {
    hide Unregistered;
    var policy := steps[i].toolPolicy;
    assert policy[..|policy|] == policy;
    assert steps[..i + 1][..i] == steps[..i];
  }

  lemma MissingNext(policy: seq<ToolBinding>, available: set<string>, j: nat)
    requires j < |policy|
    ensures MissingIn(policy[..j + 1], available) ==
            MissingIn(policy[..j], available) + (if Unregistered(policy[j], available) then [policy[j].ref] else [])
  {
    hide Unregistered;
    assert policy[..j + 1][..j] == policy[..j];
  }

  lemma BlockedIsSkipped(binding: ToolBinding, available: set<string>)
    requires binding.mode == Blocked
    ensures !Unregistered(binding, available)
  {
  }

  lemma NotBlocked(binding: ToolBinding, available: set<string>)
    requires binding.mode != Blocked
    ensures Unregistered(binding, available) <==> binding.ref != "" && available != {} && binding.ref !in available
  {
  }

  lemma NothingMissing()
    ensures SortedKeys(ToSet([])) == []
  {
    assert ToSet<string>([]) == {};
  }

  /** `apply_publish_qualification` */
  function Qualified(readiness: Readiness, blockers: seq<ReviewItem>, warnings: seq<ReviewItem>): Readiness {
    readiness.(canPublish := readiness.canPublish && blockers == [],
               blockers := readiness.blockers + blockers,
               warnings := readiness.warnings + warnings)
  }

  /** Qualifying twice is qualifying once with everything, and the verdict stays tied to the blockers. */
  lemma QualifiedAgain(readiness: Readiness, b: seq<ReviewItem>, w: seq<ReviewItem>, b': seq<ReviewItem>,
                       w': seq<ReviewItem>)
    requires readiness.canPublish <==> readiness.blockers == []
    ensures Qualified(Qualified(readiness, b, w), b', w') == Qualified(readiness, b + b', w + w')
    ensures Qualified(readiness, b, w).canPublish <==> Qualified(readiness, b, w).blockers == []
    ensures var once := Qualified(readiness, b, w);
            && once.blockers == readiness.blockers + b && once.warnings == readiness.warnings + w
            && once.availableTools == readiness.availableTools && once.missingTools == readiness.missingTools
  {
    assert readiness.blockers + b + b' == readiness.blockers + (b + b');
    assert readiness.warnings + w + w' == readiness.warnings + (w + w');
  }

  // ----- what the gate lists -----

  /** Of the issues, those of the severity, in their order. */
  lemma {:induction false} SeverityPicked(issues: seq<Issue>, severity: Severity)
    ensures Picks(issues, WithSeverity(issues, severity), (x: Issue) => x.severity == severity,
                  (x: Issue) => FromIssue(x))
  {
    var keep, image := (x: Issue) => x.severity == severity, (x: Issue) => FromIssue(x);
    if issues == [] {
      PicksNone(keep, image);
    } else {
      var init, last := issues[..|issues| - 1], issues[|issues| - 1];
      SeverityPicked(init, severity);
      assert issues == init + [last];
      PicksSnoc(init, WithSeverity(init, severity), keep, image, last);
    }
  }

  /** A step binds the ref without blocking it, and a runtime that lists tools does not list it. */
  ghost predicate UsesUnlisted(step: Step, available: set<string>, ref: string) {
    && ref != "" && available != {} && ref !in available
    && exists j :: 0 <= j < |step.toolPolicy| && step.toolPolicy[j].ref == ref && step.toolPolicy[j].mode != Blocked
  }

  lemma {:induction false} MissingInHas(policy: seq<ToolBinding>, available: set<string>, ref: string)
    ensures ref in MissingIn(policy, available) <==>
            && ref != "" && available != {} && ref !in available
            && exists j :: 0 <= j < |policy| && policy[j].ref == ref && policy[j].mode != Blocked
  {
    if policy != [] {
      var init := policy[..|policy| - 1];
      MissingInHas(init, available, ref);
      assert forall j :: 0 <= j < |init| ==> init[j] == policy[j];
    }
  }

  /** The missing tools are the refs that some step uses and the runtime does not list. */
  lemma {:induction false} MissingRefsHas(steps: seq<Step>, available: set<string>, ref: string)
    ensures ref in MissingRefs(steps, available) <==>
            exists i :: 0 <= i < |steps| && UsesUnlisted(steps[i], available, ref)
  {
    if steps != [] {
      var init, last := steps[..|steps| - 1], steps[|steps| - 1];
      LastMissing(steps, available, ref);
      hide UsesUnlisted, MissingIn, MissingRefs;
      MissingRefsHas(init, available, ref);
      assert forall i :: 0 <= i < |init| ==> init[i] == steps[i];
    }
  }

  lemma LastMissing(steps: seq<Step>, available: set<string>, ref: string)
    requires steps != []
    ensures ref in MissingRefs(steps, available) <==>
            ref in MissingRefs(steps[..|steps| - 1], available) || UsesUnlisted(steps[|steps| - 1], available, ref)
  {
    MissingInHas(steps[|steps| - 1].toolPolicy, available, ref);
    hide MissingIn;
  }

  // ----- when a draft can be published -----

  /** Every tool that a step may use is registered, or the runtime listed no tools at all. */
  predicate ToolsRegistered(steps: seq<Step>, available: set<string>) {
    available == {} ||
    forall i, j :: 0 <= i < |steps| && 0 <= j < |steps[i].toolPolicy| ==>
      var binding := steps[i].toolPolicy[j];
      binding.mode == Blocked || binding.ref == "" || binding.ref in available
  }

  lemma {:induction false} MissingInIff(policy: seq<ToolBinding>, available: set<string>)
    ensures MissingIn(policy, available) == [] <==>
            forall j :: 0 <= j < |policy| ==> !Unregistered(policy[j], available)
  {
    hide Unregistered;
    if policy != [] {
      MissingInIff(policy[..|policy| - 1], available);
    }
  }

  lemma {:induction false} MissingRefsIff(steps: seq<Step>, available: set<string>)
    ensures MissingRefs(steps, available) == [] <==> ToolsRegistered(steps, available)
  {
    if steps == [] {
    } else {
      var init, last := steps[..|steps| - 1], steps[|steps| - 1];
      MissingRefsIff(init, available);
      MissingInIff(last.toolPolicy, available);
      RegisteredSnoc(steps, available);
    }
  }

  /** A runtime that lists no tools blocks no draft for a missing tool. */
  lemma EmptyListingBlocksNothing(steps: seq<Step>)
    ensures MissingRefs(steps, {}) == []
  {
    hide MissingRefs;
    MissingRefsIff(steps, {});
  }

  lemma RegisteredSnoc(steps: seq<Step>, available: set<string>)
    requires steps != []
    ensures ToolsRegistered(steps, available) <==>
            && ToolsRegistered(steps[..|steps| - 1], available)
            && var policy := steps[|steps| - 1].toolPolicy;
               forall j :: 0 <= j < |policy| ==> !Unregistered(policy[j], available)
  {
  }

  lemma {:induction false} ErrorItemsIff(issues: seq<Issue>)
    ensures WithSeverity(issues, Error) == [] <==> CountSeverity(issues, Error) == 0
  {
    if issues != [] {
      ErrorItemsIff(issues[..|issues| - 1]);
    }
  }

  /**
   A constructed draft can be published exactly when it is ready, its tools are registered and no evaluation
   blocks it.
   */
  lemma CanPublishIff(doc: Document, available: set<string>, readiness: Readiness, blockers: seq<ReviewItem>,
                      warnings: seq<ReviewItem>)
    requires Constructed(doc) && (readiness.canPublish <==> readiness.blockers == [])
    requires readiness.blockers ==
             WithSeverity(ReportOf(doc, ReachableSet(doc)).issues, Error) +
             MissingItems(SortedKeys(ToSet(MissingRefs(Steps(doc), available))))
    ensures Qualified(readiness, blockers, warnings).canPublish <==>
            PublishReady(doc) && ToolsRegistered(Steps(doc), available) && blockers == []
  {
    hide Constructed, PublishReady, ReachableSet, AllIssues, WithSeverity, SortedKeys, MissingRefs, ToolsRegistered,
         Steps;
    ValidIffReady(doc, ReachableSet(doc));
    ErrorItemsIff(ReportOf(doc, ReachableSet(doc)).issues);
    MissingRefsIff(Steps(doc), available);
    SortedNothing(MissingRefs(Steps(doc), available));
  }

  lemma SortedNothing(refs: seq<string>)
    ensures SortedKeys(ToSet(refs)) == [] <==> refs == []
  {
    hide SortedKeys;
    if refs == [] {
      NothingMissing();
    } else {
      assert refs[0] in ToSet(refs);
      assert refs[0] in SortedKeys(ToSet(refs));
    }
  }
}

/**
 The worklist search for the steps a conversation can reach: `_reachable_step_ids`.
 */
module Reachability {
  import opened Basics
  import opened PythonDict
  import opened AgentDocument

  function TransitionTargets(step: Step): seq<string> {
    seq(|step.transitions|, i requires 0 <= i < |step.transitions| => step.transitions[i].toStepId)
  }

  /** The entry steps of the scenarios routed to from a scenario; None if one of them is missing. */
  function RouteTargets(doc: Document, routes: seq<ScenarioRoute>, scenarioId: string): Option<seq<string>> {
    if routes == [] then Some([])
    else
      var last := routes[|routes| - 1];
      match RouteTargets(doc, routes[..|routes| - 1], scenarioId)
      case None => None
      case Some(earlier) =>
        if last.fromScenarioId != scenarioId then Some(earlier)
        else
          match ScenarioById(doc, last.toScenarioId)
          case None => None
          case Some(target) => Some(earlier + [target.startStepId])
  }

  /** Where one can go from a step; None if following it would raise KeyError. */
  function Successors(doc: Document, id: string): Option<seq<string>> {
    match StepById(doc, id)
    case None => None
    case Some(step) =>
      match ScenarioForStepId(doc, id)
      case None => None
      case Some(scenario) =>
        match RouteTargets(doc, doc.scenarioRoutes, scenario.id)
        case None => None
        case Some(routed) => Some(TransitionTargets(step) + routed)
  }

  predicate Edge(doc: Document, from: string, to: string) {
    Successors(doc, from).Some? && to in Successors(doc, from).value
  }

  /** A finite path of transitions and scenario routes from the start step. */
  ghost predicate Path(doc: Document, p: seq<string>) {
    && p != []
    && StartStepId(doc) == Some(p[0])
    && forall i :: 0 <= i < |p| - 1 ==> Edge(doc, p[i], p[i + 1])
  }

  ghost predicate Reachable(doc: Document, id: string) {
    exists p :: Path(doc, p) && p[|p| - 1] == id
  }

  lemma ReachableStart(doc: Document)
    requires StartStepId(doc).Some?
    ensures Reachable(doc, StartStepId(doc).value)
  {
    var p := [StartStepId(doc).value];
    assert Path(doc, p) && p[|p| - 1] == StartStepId(doc).value;
  }

  lemma ReachableStep(doc: Document, id: string, next: string)
    requires Reachable(doc, id)
    requires Successors(doc, id).Some? && next in Successors(doc, id).value
    ensures Reachable(doc, next)
  {
    hide Successors, StartStepId;
    var p :| Path(doc, p) && p[|p| - 1] == id;
    var q := p + [next];
    assert Path(doc, q) && q[|q| - 1] == next;
  }

  /** `ids` contains the start and everything one step from its members. */
  ghost predicate Closed(doc: Document, ids: set<string>) {
    && (StartStepId(doc).Some? ==> StartStepId(doc).value in ids)
    && forall id :: id in ids ==>
         Successors(doc, id).Some? && forall next :: next in Successors(doc, id).value ==> next in ids
  }

  lemma {:induction false} ClosedHoldsPath(doc: Document, ids: set<string>, p: seq<string>)
    requires Closed(doc, ids) && Path(doc, p)
    ensures p[|p| - 1] in ids
    decreases |p|
  {
    hide Successors, StartStepId;
    if |p| > 1 {
      var init := p[..|p| - 1];
      assert Path(doc, init);
      ClosedHoldsPath(doc, ids, init);
      assert Edge(doc, p[|p| - 2], p[|p| - 2 + 1]);
    }
  }

  lemma ClosedIsReachable(doc: Document, ids: set<string>)
    requires Closed(doc, ids) && forall id :: id in ids ==> Reachable(doc, id)
    ensures forall id :: id in ids <==> Reachable(doc, id)
  {
    forall id | Reachable(doc, id)
      ensures id in ids
    {
      var p :| Path(doc, p) && p[|p| - 1] == id;
      ClosedHoldsPath(doc, ids, p);
    }
  }

  /** The search meets an id that cannot be followed. */
  ghost predicate Stuck(doc: Document) {
    StartStepId(doc).None? || exists id :: Reachable(doc, id) && Successors(doc, id).None?
  }

  /** Some elements of `more` join the queue: all those not visited, and nothing else. */
  predicate Enqueued(queue: seq<string>, more: seq<string>, visited: set<string>, result: seq<string>) {
    && (forall x :: x in queue ==> x in result)
    && (forall x :: x in result ==> x in queue || (x in more && x !in visited))
    && (forall x :: x in more ==> x in visited || x in result)
  }

  method EnqueueUnvisited(queue: seq<string>, more: seq<string>, visited: set<string>) returns (result: seq<string>)
    ensures Enqueued(queue, more, visited, result)
  {
    result := queue;
    for i := 0 to |more|
      invariant Enqueued(queue, more[..i], visited, result)
    {
      assert more[..i + 1] == more[..i] + [more[i]];
      if more[i] !in visited {
        result := result + [more[i]];
      }
    }
    assert more[..|more|] == more;
  }

  /** The route leaves the scenario, for the entry step of the scenario it names, or for none that exists. */
  ghost predicate Enters(doc: Document, route: ScenarioRoute, scenarioId: string, entry: Option<string>) {
    && route.fromScenarioId == scenarioId
    && match ScenarioById(doc, route.toScenarioId)
       case None => entry == None
       case Some(target) => entry == Some(target.startStepId)
  }

  ghost predicate Routed(doc: Document, routes: seq<ScenarioRoute>, scenarioId: string, entry: Option<string>) {
    exists r :: 0 <= r < |routes| && Enters(doc, routes[r], scenarioId, entry)
  }

  lemma RoutedSnoc(doc: Document, routes: seq<ScenarioRoute>, scenarioId: string, entry: Option<string>)
    requires routes != []
    ensures Routed(doc, routes, scenarioId, entry) <==>
            || Routed(doc, routes[..|routes| - 1], scenarioId, entry)
            || Enters(doc, routes[|routes| - 1], scenarioId, entry)
  {
    hide Enters;
    var init := routes[..|routes| - 1];
    assert forall r :: 0 <= r < |init| ==> init[r] == routes[r];
  }

  lemma {:induction false} RouteTargetsRouted(doc: Document, routes: seq<ScenarioRoute>, scenarioId: string, x: string)
    ensures RouteTargets(doc, routes, scenarioId).None? <==> Routed(doc, routes, scenarioId, None)
    ensures RouteTargets(doc, routes, scenarioId).Some? ==>
              (x in RouteTargets(doc, routes, scenarioId).value <==> Routed(doc, routes, scenarioId, Some(x)))
  {
    if routes != [] {
      RouteTargetsRouted(doc, routes[..|routes| - 1], scenarioId, x);
      RoutedSnoc(doc, routes, scenarioId, None);
      RoutedSnoc(doc, routes, scenarioId, Some(x));
      hide Routed, ScenarioById;
    }
  }

  /** The loop over scenario routes, which looks each target scenario up as it goes. */
  method EnqueueRouted(doc: Document, scenarioId: string, queue: seq<string>, visited: set<string>)
    returns (result: Option<seq<string>>)
    ensures result.None? <==> RouteTargets(doc, doc.scenarioRoutes, scenarioId).None?
    ensures result.Some? ==>
              Enqueued(queue, RouteTargets(doc, doc.scenarioRoutes, scenarioId).value, visited, result.value)
    ensures result.None? <==> Routed(doc, doc.scenarioRoutes, scenarioId, None)
    ensures result.Some? ==>
              && (forall x :: x in queue ==> x in result.value)
              && (forall x :: Routed(doc, doc.scenarioRoutes, scenarioId, Some(x)) ==>
                    x in visited || x in result.value)
              && (forall x :: x in result.value && x !in queue ==>
                    x !in visited && Routed(doc, doc.scenarioRoutes, scenarioId, Some(x)))
  {
    forall x
      ensures RouteTargets(doc, doc.scenarioRoutes, scenarioId).None? <==>
              Routed(doc, doc.scenarioRoutes, scenarioId, None)
      ensures RouteTargets(doc, doc.scenarioRoutes, scenarioId).Some? ==>
                (x in RouteTargets(doc, doc.scenarioRoutes, scenarioId).value <==>
                 Routed(doc, doc.scenarioRoutes, scenarioId, Some(x)))
    {
      RouteTargetsRouted(doc, doc.scenarioRoutes, scenarioId, x);
    }
    hide Routed;
    var routes := doc.scenarioRoutes;
    var extended := queue;
    for i := 0 to |routes|
      invariant RouteTargets(doc, routes[..i], scenarioId).Some?
      invariant Enqueued(queue, RouteTargets(doc, routes[..i], scenarioId).value, visited, extended)
    {
      assert routes[..i + 1][..i] == routes[..i];
      if routes[i].fromScenarioId == scenarioId {
        var target := ScenarioById(doc, routes[i].toScenarioId);
        if target.None? {
          RouteTargetsFail(doc, routes, scenarioId, i);
          return None;
        }
        if target.value.startStepId !in visited {
          extended := extended + [target.value.startStepId];
        }
      }
    }
    assert routes[..|routes|] == routes;
    return Some(extended);
  }

  lemma {:induction false} RouteTargetsFail(doc: Document, routes: seq<ScenarioRoute>, scenarioId: string, i: nat)
    requires i < |routes| && routes[i].fromScenarioId == scenarioId && ScenarioById(doc, routes[i].toScenarioId).None?
    ensures RouteTargets(doc, routes, scenarioId).None?
  {
    if i < |routes| - 1 {
      RouteTargetsFail(doc, routes[..|routes| - 1], scenarioId, i);
    }
  }

  /** What the search knows between two visits. */
  ghost predicate SearchInvariant(doc: Document, visited: set<string>, queue: seq<string>) {
    && StartStepId(doc).Some?
    && (StartStepId(doc).value in visited || StartStepId(doc).value in queue)
    && visited <= StepIds(doc)
    && (forall id :: id in visited ==> Reachable(doc, id))
    && (forall id :: id in queue ==> Reachable(doc, id))
    && (forall id :: id in visited ==>
          && Successors(doc, id).Some?
          && forall next :: next in Successors(doc, id).value ==> next in visited || next in queue)
  }

  /** Visiting an id keeps the invariant. */
  lemma VisitKeepsInvariant(doc: Document, visited: set<string>, current: string, rest: seq<string>,
                            result: seq<string>)
    requires SearchInvariant(doc, visited, [current] + rest)
    requires current in StepIds(doc) && Successors(doc, current).Some?
    requires Enqueued(rest, Successors(doc, current).value, visited + {current}, result)
    ensures SearchInvariant(doc, visited + {current}, result)
  {
    hide Successors, Reachable, StartStepId;
    assert current in [current] + rest;
    forall id | id in result
      ensures Reachable(doc, id)
    {
      if id in rest {
        assert id in [current] + rest;
      } else {
        ReachableStep(doc, current, id);
      }
    }
  }

  /**
   Exact reachability: the search returns precisely the ids joined to the start step by a path, or
   fails precisely when a reachable id cannot be followed.
   */
  method ReachableStepIds(doc: Document) returns (r: Option<set<string>>)
    ensures r.None? <==> Stuck(doc)
    ensures r.Some? ==> forall id :: id in r.value <==> Reachable(doc, id)
  {
    hide Successors, Reachable, StartStepId, RouteTargets, StepIds, StepById;
    var visited: set<string> := {};
    var start := StartStepId(doc);
    if start.None? {
      return None;
    }
    ReachableStart(doc);
    var queue := [start.value];
    while queue != []
      invariant SearchInvariant(doc, visited, queue)
      decreases |StepIds(doc) - visited|, |queue|
    {
      var current, rest := queue[0], queue[1..];
      assert queue == [current] + rest;
      assert current in queue;
      queue := rest;
      if current in visited {
        assert SearchInvariant(doc, visited, queue);
        continue;
      }
      StepByIdKnown(doc, current);
      SuccessorsUnfold(doc, current);
      var step := StepById(doc, current);
      if step.None? {
        return None;
      }
      var more := EnqueueUnvisited(queue, TransitionTargets(step.value), visited + {current});
      OwnerKnown(doc, current);
      var scenario := ScenarioForStepId(doc, current).value;
      var routed := EnqueueRouted(doc, scenario.id, more, visited + {current});
      if routed.None? {
        return None;
      }
      VisitKeepsInvariant(doc, visited, current, rest, routed.value);
      VisitShrinks(StepIds(doc), visited, current);
      visited := visited + {current};
      queue := routed.value;
    }
    assert Closed(doc, visited);
    ClosedIsReachable(doc, visited);
    return Some(visited);
  }

  lemma VisitShrinks(all: set<string>, visited: set<string>, current: string)
    requires current in all && current !in visited
    ensures |all - (visited + {current})| < |all - visited|
  {
    assert all - visited == (all - (visited + {current})) + {current};
  }

  lemma SuccessorsUnfold(doc: Document, id: string)
    ensures Successors(doc, id) ==
            if StepById(doc, id).None? || ScenarioForStepId(doc, id).None? then None
            else
              match RouteTargets(doc, doc.scenarioRoutes, ScenarioForStepId(doc, id).value.id)
              case None => None
              case Some(routed) => Some(TransitionTargets(StepById(doc, id).value) + routed)
  {
  }

  // ----- constructed documents -----

  lemma {:induction false} RouteTargetsKnown(doc: Document, routes: seq<ScenarioRoute>, scenarioId: string)
    requires Constructed(doc)
    requires forall i :: 0 <= i < |routes| ==> routes[i].toScenarioId in ToSet(ScenarioIdsOf(doc.scenarios))
    ensures RouteTargets(doc, routes, scenarioId).Some?
    ensures forall id :: id in RouteTargets(doc, routes, scenarioId).value ==> id in StepIds(doc)
  {
    if routes != [] {
      var last := routes[|routes| - 1];
      RouteTargetsKnown(doc, routes[..|routes| - 1], scenarioId);
      ScenarioByIdKnown(doc, last.toScenarioId);
      EntryKnown(doc, ScenarioById(doc, last.toScenarioId).value);
      hide StepIds, ScenarioById, Constructed;
    }
  }

  /** The entry step of a scenario is a step of the document. */
  lemma EntryKnown(doc: Document, scenario: Scenario)
    requires Constructed(doc) && scenario in doc.scenarios
    ensures scenario.startStepId in StepIds(doc)
  {
    var i :| 0 <= i < |doc.scenarios| && doc.scenarios[i] == scenario;
    assert ScenarioAccepted(doc.scenarios[i]);
    OwnerOfKnown(doc.scenarios, scenario.startStepId);
    OwnerKnown(doc, scenario.startStepId);
    hide StepIds, ValidateDocument;
    assert HasStep(doc.scenarios[i], scenario.startStepId);
  }

  /** In a constructed document every step can be followed, and leads to steps. */
  lemma SuccessorsKnown(doc: Document, id: string)
    requires Constructed(doc) && id in StepIds(doc)
    ensures Successors(doc, id).Some?
    ensures forall next :: next in Successors(doc, id).value ==> next in StepIds(doc)
  {
    ValidateDocumentIff(doc);
    assert TargetsKnown(doc);
    StepByIdKnown(doc, id);
    OwnerKnown(doc, id);
    var step := StepById(doc, id).value;
    var scenario := ScenarioForStepId(doc, id).value;
    RouteTargetsKnown(doc, doc.scenarioRoutes, scenario.id);
    var i :| 0 <= i < |Steps(doc)| && Steps(doc)[i] == step;
    hide StepIds, ValidateDocument, Constructed, RouteTargets, StepById, ScenarioForStepId, ScenarioById;
    SuccessorsUnfold(doc, id);
  }

  lemma {:induction false} PathKnown(doc: Document, p: seq<string>)
    requires Constructed(doc) && Path(doc, p)
    ensures p[|p| - 1] in StepIds(doc)
    decreases |p|
  {
    if |p| > 1 {
      var init := p[..|p| - 1];
      hide Successors, StartStepId, StepIds, Constructed;
      assert Path(doc, init);
      PathKnown(doc, init);
      assert Edge(doc, p[|p| - 2], p[|p| - 2 + 1]);
      SuccessorsKnown(doc, p[|p| - 2]);
    } else {
      StartIsStep(doc);
    }
  }

  lemma StartIsStep(doc: Document)
    requires Constructed(doc)
    ensures StartStepId(doc).Some? && StartStepId(doc).value in StepIds(doc)
  {
    ScenarioByIdKnown(doc, doc.startScenarioId);
    EntryKnown(doc, ScenarioById(doc, doc.startScenarioId).value);
  }

  /** The search never raises KeyError on a document the validators accepted, and returns only its steps. */
  lemma ConstructedNeverStuck(doc: Document)
    requires Constructed(doc)
    ensures !Stuck(doc)
    ensures forall id :: Reachable(doc, id) ==> id in StepIds(doc)
  {
    StartIsStep(doc);
    forall id | Reachable(doc, id)
      ensures id in StepIds(doc) && Successors(doc, id).Some?
    {
      var p :| Path(doc, p) && p[|p| - 1] == id;
      PathKnown(doc, p);
      SuccessorsKnown(doc, id);
    }
  }
}

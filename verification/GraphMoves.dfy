/**
 What the reachability search follows, read off the document: transitions by their target ids and scenario
 routes by their two scenarios, without the lookups and lists that the search itself works with.
 */
module GraphMoves {
  import opened Basics
  import opened PythonDict
  import opened AgentDocument
  import opened Reachability

  /** Some step with the id `from` has a transition to `to`. */
  ghost predicate TransitionTo(doc: Document, from: string, to: string) {
    exists i, k, m :: 0 <= i < |doc.scenarios| && 0 <= k < |doc.scenarios[i].steps| &&
      0 <= m < |doc.scenarios[i].steps[k].transitions| &&
      doc.scenarios[i].steps[k].id == from && doc.scenarios[i].steps[k].transitions[m].toStepId == to
  }

  /** A route leads from a scenario with a step `from` to a scenario that starts at `to`. */
  ghost predicate RoutedTo(doc: Document, from: string, to: string) {
    exists r, i, k, j :: 0 <= r < |doc.scenarioRoutes| && 0 <= i < |doc.scenarios| &&
      0 <= k < |doc.scenarios[i].steps| && 0 <= j < |doc.scenarios| &&
      doc.scenarios[i].steps[k].id == from && doc.scenarioRoutes[r].fromScenarioId == doc.scenarios[i].id &&
      doc.scenarioRoutes[r].toScenarioId == doc.scenarios[j].id && doc.scenarios[j].startStepId == to
  }

  ghost predicate Moves(doc: Document, from: string, to: string) {
    TransitionTo(doc, from, to) || RoutedTo(doc, from, to)
  }

  /** The entry step of the scenario that the document starts with. */
  ghost predicate Starts(doc: Document, id: string) {
    exists i :: 0 <= i < |doc.scenarios| && doc.scenarios[i].id == doc.startScenarioId &&
      doc.scenarios[i].startStepId == id
  }

  /** A finite path from the start, each step moving to the next. */
  ghost predicate Track(doc: Document, p: seq<string>) {
    p != [] && Starts(doc, p[0]) && forall i :: 0 <= i < |p| - 1 ==> Moves(doc, p[i], p[i + 1])
  }

  ghost predicate Joined(doc: Document, id: string) {
    exists p :: Track(doc, p) && p[|p| - 1] == id
  }

  // ----- lookups on a constructed document -----

  lemma ScenarioFound(doc: Document, i: nat)
    requires Constructed(doc) && i < |doc.scenarios|
    ensures ScenarioById(doc, doc.scenarios[i].id) == Some(doc.scenarios[i])
  {
    ConstructedIds(doc);
    var items, ids := ScenarioItems(doc.scenarios), ScenarioIdsOf(doc.scenarios);
    hide Constructed;
    forall j | 0 <= j < i
      ensures items[j].0 != items[i].0
    {
      assert ids[j] != ids[i];
    }
    FindIsFirst(items, i);
  }

  lemma StepFound(doc: Document, n: nat)
    requires Constructed(doc) && n < |Steps(doc)|
    ensures StepById(doc, Steps(doc)[n].id) == Some(Steps(doc)[n])
  {
    ConstructedIds(doc);
    var items, ids := StepItems(Steps(doc)), IdsOf(Steps(doc));
    hide Constructed, Steps;
    forall j | 0 <= j < n
      ensures items[j].0 != items[n].0
    {
      assert ids[j] != ids[n];
    }
    FindIsFirst(items, n);
  }

  lemma StepPosition(doc: Document, i: nat, k: nat) returns (n: nat)
    requires i < |doc.scenarios| && k < |doc.scenarios[i].steps|
    ensures n < |Steps(doc)| && Steps(doc)[n] == doc.scenarios[i].steps[k]
  {
    StepsOfMember(doc.scenarios, doc.scenarios[i].steps[k]);
    n :| n < |Steps(doc)| && Steps(doc)[n] == doc.scenarios[i].steps[k];
  }

  lemma DistinctParts(first: seq<Step>, rest: seq<Step>)
    requires Distinct(IdsOf(first + rest))
    ensures Distinct(IdsOf(rest))
    ensures forall a, n :: 0 <= a < |first| && 0 <= n < |rest| ==> first[a].id != rest[n].id
  {
    var ids := IdsOf(first + rest);
    assert forall n :: 0 <= n < |rest| ==> ids[|first| + n] == rest[n].id;
    assert forall n :: 0 <= n < |first| ==> ids[n] == first[n].id;
    forall a, b | 0 <= a < b < |rest|
      ensures rest[a].id != rest[b].id
    {
      assert ids[|first| + a] != ids[|first| + b];
    }
  }

  /** No two scenarios share a step id. */
  lemma {:induction false} OneOwner(scenarios: seq<Scenario>, i: nat, j: nat, id: string)
    requires Distinct(IdsOf(StepsOf(scenarios))) && i < j < |scenarios|
    requires HasStep(scenarios[i], id)
    ensures !HasStep(scenarios[j], id)
  {
    var first, rest := scenarios[0].steps, StepsOf(scenarios[1..]);
    DistinctParts(first, rest);
    hide Distinct, IdsOf, StepsOf;
    if i == 0 {
      var a :| 0 <= a < |first| && first[a].id == id;
      var steps := scenarios[j].steps;
      assert scenarios[1..][j - 1] == scenarios[j];
      forall k | 0 <= k < |steps|
        ensures steps[k].id != id
      {
        StepsOfMember(scenarios[1..], steps[k]);
        var n :| 0 <= n < |rest| && rest[n] == steps[k];
        assert first[a].id != rest[n].id;
      }
    } else {
      OneOwner(scenarios[1..], i - 1, j - 1, id);
    }
  }

  lemma OwnerFound(doc: Document, i: nat, id: string)
    requires Constructed(doc) && i < |doc.scenarios| && HasStep(doc.scenarios[i], id)
    ensures ScenarioForStepId(doc, id) == Some(doc.scenarios[i])
  {
    ConstructedIds(doc);
    hide Constructed, HasStep;
    OwnerOfKnown(doc.scenarios, id);
    var j :| 0 <= j < |doc.scenarios| && doc.scenarios[j] == OwnerOf(doc.scenarios, id).value;
    if i < j {
      OneOwner(doc.scenarios, i, j, id);
    } else if j < i {
      OneOwner(doc.scenarios, j, i, id);
    }
  }

  // ----- the relation the search follows is this one -----

  lemma TransitionEdge(doc: Document, from: string, to: string)
    requires Constructed(doc) && StepById(doc, from).Some?
    ensures to in TransitionTargets(StepById(doc, from).value) <==> TransitionTo(doc, from, to)
  {
    hide Constructed, StepById, Steps;
    StepByIdKnown(doc, from);
    var step := StepById(doc, from).value;
    if to in TransitionTargets(step) {
      var m :| 0 <= m < |step.transitions| && step.transitions[m].toStepId == to;
      assert step in Steps(doc);
      assert step in StepsOf(doc.scenarios) by { assert Steps(doc) == StepsOf(doc.scenarios) by { StepsAre(doc); } }
      StepsOfMember(doc.scenarios, step);
      var i :| 0 <= i < |doc.scenarios| && step in doc.scenarios[i].steps;
      var k :| 0 <= k < |doc.scenarios[i].steps| && doc.scenarios[i].steps[k] == step;
      assert doc.scenarios[i].steps[k].id == from && doc.scenarios[i].steps[k].transitions[m].toStepId == to;
    }
    if TransitionTo(doc, from, to) {
      var i, k, m :| 0 <= i < |doc.scenarios| && 0 <= k < |doc.scenarios[i].steps| &&
                     0 <= m < |doc.scenarios[i].steps[k].transitions| && doc.scenarios[i].steps[k].id == from &&
                     doc.scenarios[i].steps[k].transitions[m].toStepId == to;
      var n := StepPosition(doc, i, k);
      StepFound(doc, n);
      assert TransitionTargets(step)[m] == to;
    }
  }

  lemma StepsAre(doc: Document)
    ensures Steps(doc) == StepsOf(doc.scenarios)
  {
  }

  lemma RouteEdge(doc: Document, from: string, to: string)
    requires Constructed(doc) && ScenarioForStepId(doc, from).Some?
    requires RouteTargets(doc, doc.scenarioRoutes, ScenarioForStepId(doc, from).value.id).Some?
    ensures to in RouteTargets(doc, doc.scenarioRoutes, ScenarioForStepId(doc, from).value.id).value <==>
            RoutedTo(doc, from, to)
  {
    hide Constructed, ScenarioById, RouteTargets, RoutedTo, ScenarioForStepId;
    var owner := ScenarioForStepId(doc, from).value;
    RouteTargetsRouted(doc, doc.scenarioRoutes, owner.id, to);
    if Routed(doc, doc.scenarioRoutes, owner.id, Some(to)) {
      var r :| 0 <= r < |doc.scenarioRoutes| && Enters(doc, doc.scenarioRoutes[r], owner.id, Some(to));
      RouteIsTaken(doc, from, to, r);
    }
    if RoutedTo(doc, from, to) {
      var r := TakenRoute(doc, from, to);
      assert Enters(doc, doc.scenarioRoutes[r], owner.id, Some(to));
    }
  }

  lemma RouteIsTaken(doc: Document, from: string, to: string, r: nat)
    requires ScenarioForStepId(doc, from).Some? && r < |doc.scenarioRoutes|
    requires doc.scenarioRoutes[r].fromScenarioId == ScenarioForStepId(doc, from).value.id
    requires ScenarioById(doc, doc.scenarioRoutes[r].toScenarioId).Some?
    requires ScenarioById(doc, doc.scenarioRoutes[r].toScenarioId).value.startStepId == to
    ensures RoutedTo(doc, from, to)
  {
    hide ScenarioById, RoutedTo, OwnerOf;
    OwnerOfKnown(doc.scenarios, from);
    var owner := ScenarioForStepId(doc, from).value;
    var i :| 0 <= i < |doc.scenarios| && doc.scenarios[i] == owner;
    var k :| 0 <= k < |owner.steps| && owner.steps[k].id == from;
    ScenarioByIdKnown(doc, doc.scenarioRoutes[r].toScenarioId);
    var target := ScenarioById(doc, doc.scenarioRoutes[r].toScenarioId).value;
    var j :| 0 <= j < |doc.scenarios| && doc.scenarios[j] == target;
    RouteShows(doc, from, to, r, i, k, j);
  }

  lemma TakenRoute(doc: Document, from: string, to: string) returns (r: nat)
    requires Constructed(doc) && RoutedTo(doc, from, to)
    ensures ScenarioForStepId(doc, from).Some? && r < |doc.scenarioRoutes|
    ensures doc.scenarioRoutes[r].fromScenarioId == ScenarioForStepId(doc, from).value.id
    ensures ScenarioById(doc, doc.scenarioRoutes[r].toScenarioId).Some?
    ensures ScenarioById(doc, doc.scenarioRoutes[r].toScenarioId).value.startStepId == to
  {
    hide Constructed, ScenarioById, ScenarioForStepId;
    var q, i, k, j :| 0 <= q < |doc.scenarioRoutes| && 0 <= i < |doc.scenarios| &&
                      0 <= k < |doc.scenarios[i].steps| && 0 <= j < |doc.scenarios| &&
                      doc.scenarios[i].steps[k].id == from &&
                      doc.scenarioRoutes[q].fromScenarioId == doc.scenarios[i].id &&
                      doc.scenarioRoutes[q].toScenarioId == doc.scenarios[j].id &&
                      doc.scenarios[j].startStepId == to;
    r := q;
    assert HasStep(doc.scenarios[i], from);
    OwnerFound(doc, i, from);
    ScenarioFound(doc, j);
  }

  lemma RouteShows(doc: Document, from: string, to: string, r: nat, i: nat, k: nat, j: nat)
    requires r < |doc.scenarioRoutes| && i < |doc.scenarios| && k < |doc.scenarios[i].steps| && j < |doc.scenarios|
    requires doc.scenarios[i].steps[k].id == from && doc.scenarioRoutes[r].fromScenarioId == doc.scenarios[i].id
    requires doc.scenarioRoutes[r].toScenarioId == doc.scenarios[j].id && doc.scenarios[j].startStepId == to
    ensures RoutedTo(doc, from, to)
  {
  }

  /** The search moves from a step exactly along its transitions and along the routes of its scenario. */
  lemma EdgeIff(doc: Document, from: string, to: string)
    requires Constructed(doc) && from in StepIds(doc)
    ensures Edge(doc, from, to) <==> Moves(doc, from, to)
  {
    StepByIdKnown(doc, from);
    OwnerKnown(doc, from);
    SuccessorsKnown(doc, from);
    SuccessorsUnfold(doc, from);
    hide Constructed, StepIds, StepById, ScenarioForStepId, RouteTargets, Successors, TransitionTo, RoutedTo;
    hide TransitionTargets;
    TransitionEdge(doc, from, to);
    RouteEdge(doc, from, to);
  }

  lemma StartIff(doc: Document, id: string)
    requires Constructed(doc)
    ensures StartStepId(doc) == Some(id) <==> Starts(doc, id)
  {
    StartIsStep(doc);
    hide Constructed, ScenarioById;
    ScenarioByIdKnown(doc, doc.startScenarioId);
    if Starts(doc, id) {
      var i :| 0 <= i < |doc.scenarios| && doc.scenarios[i].id == doc.startScenarioId &&
               doc.scenarios[i].startStepId == id;
      ScenarioFound(doc, i);
    }
    if StartStepId(doc) == Some(id) {
      var scenario := ScenarioById(doc, doc.startScenarioId).value;
      var i :| 0 <= i < |doc.scenarios| && doc.scenarios[i] == scenario;
    }
  }

  lemma {:induction false} PathIff(doc: Document, p: seq<string>)
    requires Constructed(doc)
    ensures Path(doc, p) <==> Track(doc, p)
    decreases |p|
  {
    hide Constructed, StartStepId, Edge, Moves, Starts, StepIds;
    if p == [] {
    } else if |p| == 1 {
      StartIff(doc, p[0]);
    } else {
      var init := p[..|p| - 1];
      PathIff(doc, init);
      assert forall i :: 0 <= i < |init| ==> init[i] == p[i];
      if Path(doc, init) {
        PathKnown(doc, init);
        EdgeIff(doc, p[|p| - 2], p[|p| - 1]);
      }
      var n := |p| - 2;
      assert Path(doc, p) <==> Path(doc, init) && Edge(doc, p[n], p[n + 1]) by { PathSnoc(doc, p); }
      assert Track(doc, p) <==> Track(doc, init) && Moves(doc, p[n], p[n + 1]) by { TrackSnoc(doc, p); }
    }
  }

  lemma PathSnoc(doc: Document, p: seq<string>)
    requires |p| >= 2
    ensures Path(doc, p) <==> Path(doc, p[..|p| - 1]) && Edge(doc, p[|p| - 2], p[|p| - 1])
  {
    hide StartStepId, Edge;
    var init, n := p[..|p| - 1], |p| - 2;
    assert forall i :: 0 <= i < |init| ==> init[i] == p[i];
    if Path(doc, p) {
      assert Edge(doc, p[n], p[n + 1]);
      assert forall i :: 0 <= i < |init| - 1 ==> Edge(doc, p[i], p[i + 1]);
    }
    if Path(doc, init) && Edge(doc, p[n], p[n + 1]) {
      forall i | 0 <= i < |p| - 1
        ensures Edge(doc, p[i], p[i + 1])
      {
        assert i < n ==> Edge(doc, init[i], init[i + 1]);
      }
    }
  }

  lemma TrackSnoc(doc: Document, p: seq<string>)
    requires |p| >= 2
    ensures Track(doc, p) <==> Track(doc, p[..|p| - 1]) && Moves(doc, p[|p| - 2], p[|p| - 1])
  {
    hide Starts, Moves;
    var init, n := p[..|p| - 1], |p| - 2;
    assert forall i :: 0 <= i < |init| ==> init[i] == p[i];
    if Track(doc, p) {
      assert Moves(doc, p[n], p[n + 1]);
      assert forall i :: 0 <= i < |init| - 1 ==> Moves(doc, p[i], p[i + 1]);
    }
    if Track(doc, init) && Moves(doc, p[n], p[n + 1]) {
      forall i | 0 <= i < |p| - 1
        ensures Moves(doc, p[i], p[i + 1])
      {
        assert i < n ==> Moves(doc, init[i], init[i + 1]);
      }
    }
  }

  /**
   On a constructed document the search returns exactly the ids that a finite path of transitions and scenario
   routes joins to the entry step of the start scenario.
   */
  method ReachableOnConstructed(doc: Document) returns (ids: set<string>)
    requires Constructed(doc)
    ensures forall id :: id in ids <==> Joined(doc, id)
  {
    hide Constructed, Stuck, Reachable, Joined;
    ConstructedNeverStuck(doc);
    var r := ReachableStepIds(doc);
    ids := r.value;
    forall id
      ensures Reachable(doc, id) <==> Joined(doc, id)
    {
      ReachableIff(doc, id);
    }
  }

  lemma ReachableIff(doc: Document, id: string)
    requires Constructed(doc)
    ensures Reachable(doc, id) <==> Joined(doc, id)
  {
    hide Constructed;
    forall p: seq<string>
      ensures Path(doc, p) <==> Track(doc, p)
    {
      PathIff(doc, p);
    }
    if Reachable(doc, id) {
      var p :| Path(doc, p) && p[|p| - 1] == id;
      assert Track(doc, p);
    }
    if Joined(doc, id) {
      var p :| Track(doc, p) && p[|p| - 1] == id;
      assert Path(doc, p);
    }
  }
}

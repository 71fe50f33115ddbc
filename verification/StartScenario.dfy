/**
 Where a conversation starts: `select_start_scenario_id`.
 */
module StartScenario {
  import opened Basics
  import opened Ordering
  import opened PythonDict
  import opened AgentDocument
  import opened PublishValidation
  import opened PublishReadiness

  datatype SelectError = UnknownScenario | ChannelNotAllowed

  function ScenarioRank(scenario: Scenario): Rank {
    (scenario.order, scenario.id)
  }

  function FirstListing(scenarios: seq<Scenario>, channel: string): Option<string> {
    if scenarios == [] then None
    else if channel in scenarios[0].entryChannels then Some(scenarios[0].id)
    else FirstListing(scenarios[1..], channel)
  }

  /** An empty channel counts as no channel. */
  function SelectStart(doc: Document, requested: Option<string>, channel: Option<string>): Result<string, SelectError> {
    var given := channel.Some? && channel.value != "";
    if requested.Some? then
      match ScenarioById(doc, requested.value)
      case None => Err(UnknownScenario)
      case Some(scenario) =>
        if given && scenario.entryChannels != [] && channel.value !in scenario.entryChannels then Err(ChannelNotAllowed)
        else Ok(requested.value)
    else if given then
      match FirstListing(SortByRank(doc.scenarios, ScenarioRank), channel.value)
      case Some(id) => Ok(id)
      case None => Ok(doc.startScenarioId)
    else Ok(doc.startScenarioId)
  }

  predicate Lists(scenario: Scenario, channel: string) {
    channel in scenario.entryChannels
  }

  lemma {:induction false} FirstListingIs(scenarios: seq<Scenario>, channel: string)
    requires Sorted(scenarios, ScenarioRank)
    ensures FirstListing(scenarios, channel).None? <==> forall s :: s in scenarios ==> !Lists(s, channel)
    ensures FirstListing(scenarios, channel).Some? ==>
              exists s :: s in scenarios && Lists(s, channel) && s.id == FirstListing(scenarios, channel).value
                          && forall t :: t in scenarios && Lists(t, channel) ==>
                             RankLeq(ScenarioRank(s), ScenarioRank(t))
  {
    if scenarios != [] {
      var head := scenarios[0];
      RankTotal(ScenarioRank(head), ScenarioRank(head));
      forall t | t in scenarios
        ensures RankLeq(ScenarioRank(head), ScenarioRank(t))
      {
        var i :| 0 <= i < |scenarios| && scenarios[i] == t;
      }
      if !Lists(head, channel) {
        FirstListingIs(scenarios[1..], channel);
        assert forall s :: s in scenarios <==> s == head || s in scenarios[1..];
      }
    }
  }

  /** The least by (order, id) among the scenarios that list the channel. */
  ghost predicate LeastListing(doc: Document, channel: string, s: Scenario) {
    && s in doc.scenarios && Lists(s, channel)
    && forall t :: t in doc.scenarios && Lists(t, channel) ==> Before(s, t)
  }

  /** By order, and at the same order by id. */
  predicate Before(s: Scenario, t: Scenario) {
    s.order < t.order || (s.order == t.order && StrLeq(s.id, t.id))
  }

  lemma BeforeIsRank(s: Scenario, t: Scenario)
    ensures Before(s, t) <==> RankLeq(ScenarioRank(s), ScenarioRank(t))
  {
  }

  /** With no scenario requested, a channel selects the least scenario listing it, or else the start scenario. */
  lemma SelectsLeastListing(doc: Document, channel: string)
    requires channel != ""
    ensures var chosen := SelectStart(doc, None, Some(channel));
            if exists s :: s in doc.scenarios && Lists(s, channel)
            then exists s :: LeastListing(doc, channel, s) && chosen == Ok(s.id)
            else chosen == Ok(doc.startScenarioId)
  {
    var sorted := SortByRank(doc.scenarios, ScenarioRank);
    SortByRankSorts(doc.scenarios, ScenarioRank);
    FirstListingIs(sorted, channel);
    forall s
      ensures s in sorted <==> s in doc.scenarios
    {
      SortByRankMembers(doc.scenarios, ScenarioRank, s);
    }
    forall s, t
      ensures Before(s, t) <==> RankLeq(ScenarioRank(s), ScenarioRank(t))
    {
      BeforeIsRank(s, t);
    }
    hide SortByRank, FirstListing, Sorted, ScenarioRank, Before;
    if FirstListing(sorted, channel).Some? {
      var s :| s in sorted && Lists(s, channel) && s.id == FirstListing(sorted, channel).value
               && forall t :: t in sorted && Lists(t, channel) ==> RankLeq(ScenarioRank(s), ScenarioRank(t));
      assert LeastListing(doc, channel, s);
    }
  }

  /** After a valid report the choice is forced: whichever scenario lists the channel is the one selected. */
  lemma ValidReportSelectsTheOwner(doc: Document, reachable: set<string>, channel: string, owner: Scenario)
    requires Constructed(doc) && ReportOf(doc, reachable).valid
    requires channel != "" && owner in doc.scenarios && Lists(owner, channel)
    ensures SelectStart(doc, None, Some(channel)) == Ok(owner.id)
  {
    hide Constructed, ReportOf, SelectStart, PublishReady;
    ReadyChannels(doc, reachable);
    SelectsLeastListing(doc, channel);
    var s :| LeastListing(doc, channel, s) && SelectStart(doc, None, Some(channel)) == Ok(s.id);
    var i :| 0 <= i < |doc.scenarios| && doc.scenarios[i] == s;
    var j :| 0 <= j < |doc.scenarios| && doc.scenarios[j] == owner;
    assert s.id == owner.id;
  }

  lemma ReadyChannels(doc: Document, reachable: set<string>)
    requires Constructed(doc) && ReportOf(doc, reachable).valid
    ensures !ChannelShared(doc.scenarios)
  {
    hide Constructed, ReportOf, ChannelShared;
    ValidIffReady(doc, reachable);
  }

  /** The selection does not depend on the order in which the scenarios are stored. */
  lemma SelectionIgnoresStorageOrder(a: Document, b: Document, channel: Option<string>)
    requires multiset(a.scenarios) == multiset(b.scenarios) && a.startScenarioId == b.startScenarioId
    ensures SelectStart(a, None, channel) == SelectStart(b, None, channel)
  {
    if channel.Some? && channel.value != "" {
      SelectsLeastListing(a, channel.value);
      SelectsLeastListing(b, channel.value);
      forall s
        ensures s in a.scenarios <==> s in b.scenarios
      {
        assert s in a.scenarios <==> s in multiset(a.scenarios);
        assert s in b.scenarios <==> s in multiset(b.scenarios);
      }
      hide SelectStart;
      if exists s :: s in a.scenarios && Lists(s, channel.value) {
        var s :| LeastListing(a, channel.value, s) && SelectStart(a, None, channel) == Ok(s.id);
        var t :| LeastListing(b, channel.value, t) && SelectStart(b, None, channel) == Ok(t.id);
        BeforeIsRank(s, t);
        BeforeIsRank(t, s);
        RankAntisymmetric(ScenarioRank(s), ScenarioRank(t));
      }
    }
  }

  /** No channel is given, or the scenario lists no channels, or it lists this one. */
  ghost predicate Admits(scenario: Scenario, channel: Option<string>) {
    match channel
    case None => true
    case Some(name) => name == "" || scenario.entryChannels == [] || name in scenario.entryChannels
  }

  /** The first scenario with the id. */
  ghost predicate IsRequested(doc: Document, requested: string, i: nat) {
    && i < |doc.scenarios| && doc.scenarios[i].id == requested
    && forall j :: 0 <= j < i ==> doc.scenarios[j].id != requested
  }

  /** A requested scenario is used exactly when it exists and admits the channel; otherwise the error says why. */
  lemma RequestedScenarioSelected(doc: Document, requested: string, channel: Option<string>)
    ensures var chosen := SelectStart(doc, Some(requested), channel);
            && (chosen == Ok(requested) <==>
                exists i: nat :: IsRequested(doc, requested, i) && Admits(doc.scenarios[i], channel))
            && (chosen == Err(UnknownScenario) <==>
                forall i :: 0 <= i < |doc.scenarios| ==> doc.scenarios[i].id != requested)
            && (chosen == Err(ChannelNotAllowed) <==>
                exists i: nat :: IsRequested(doc, requested, i) && !Admits(doc.scenarios[i], channel))
  {
    var items := ScenarioItems(doc.scenarios);
    FindNone(items, requested);
    if HasKey(items, requested) {
      FirstWithKey(items, requested);
      var i :| 0 <= i < |items| && items[i].0 == requested && forall j :: 0 <= j < i ==> items[j].0 != requested;
      FindIsFirst(items, i);
      assert forall j :: 0 <= j < |items| ==> items[j].0 == doc.scenarios[j].id;
      assert IsRequested(doc, requested, i);
      assert forall j: nat :: IsRequested(doc, requested, j) ==> j == i;
      assert ScenarioById(doc, requested) == Some(doc.scenarios[i]);
    } else {
      forall i | 0 <= i < |doc.scenarios|
        ensures doc.scenarios[i].id != requested
      {
        assert items[i].0 == doc.scenarios[i].id;
      }
    }
  }

  /** With neither a scenario nor a channel given, the document's start scenario is used. */
  lemma NothingRequested(doc: Document, channel: Option<string>)
    requires channel == None || channel == Some("")
    ensures SelectStart(doc, None, channel) == Ok(doc.startScenarioId)
  {
  }
}

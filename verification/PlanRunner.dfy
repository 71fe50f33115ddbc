/**
 The bounded tool-plan runner: the adapter, the clock and the cancellation token are oracles, so every claim
 holds whatever they do.
 */
module PlanRunner {
  import opened Basics
  import opened ToolValues

  datatype Call = Call(tool: string, arguments: Object)

  /** What a tool call, or the listing of the tools, comes back with. */
  datatype Reply = Returned(value: Value) | Raised

  datatype Listing = Listed(tools: seq<Value>) | ListingRaised

  /**
   The world a run meets. `reply` sees the calls made before; `clock(0)` is read at the start, and `clock(i)`
   and `cancelled(i)` before the i-th call.
   */
  datatype World = World(
    reply: (seq<Call>, Call) -> Reply,
    listing: Listing,
    clock: nat -> real,
    cancelled: nat -> bool,
    show: Value -> string)

  datatype Limits = Limits(maxToolCalls: int, maxWallClock: real, allowed: set<string>)

  datatype Status = Completed | Blocked | Failed

  datatype ToolResult = ToolResult(tool: string, value: Value)

  datatype RunnerResult = RunnerResult(status: Status, results: seq<ToolResult>, blocker: Option<string>)

  datatype Exception = Cancelled | CallRaised | ListingFailed

  function Show(world: World, v: Value): string {
    if v.Str? then v.s else world.show(v)
  }

  /** `str(v or default)` */
  function ShowOr(world: World, v: Value, default: string): string {
    if Truthy(v) then Show(world, v) else default
  }

  /** `_available_tool_names` */
  function Available(world: World, limits: Limits): set<string> {
    if world.listing.ListingRaised? then {}
    else (set t | t in world.listing.tools && t.Dict? :: ShowOr(world, Get(t.entries, "name"), "")) * limits.allowed
  }

  predicate IsBlocked(v: Value) {
    v.Dict? && Get(v.entries, "status") == Str("blocked")
  }

  function BlockerOf(world: World, v: Value): string
    requires v.Dict?
  {
    ShowOr(world, Get(v.entries, "error"), "tool_blocked")
  }

  /** What stands in the way of making the i-th call (from 0) of the plan. */
  datatype Obstacle = NoObstacle | CancelledFirst | OutOfTime | NotAllowed

  function ObstacleAt(world: World, limits: Limits, plan: seq<Call>, i: nat): Obstacle
    requires i < |plan|
  {
    if world.cancelled(i + 1) then CancelledFirst
    else if world.clock(i + 1) - world.clock(0) > limits.maxWallClock then OutOfTime
    else if plan[i].tool !in Available(world, limits) then NotAllowed
    else NoObstacle
  }

  function ReplyAt(world: World, plan: seq<Call>, i: nat): Reply
    requires i < |plan|
  {
    world.reply(plan[..i], plan[i])
  }

  /** The i-th call is made, and the run goes on after it. */
  predicate Passes(world: World, limits: Limits, plan: seq<Call>, i: nat)
    requires i < |plan|
  {
    && ObstacleAt(world, limits, plan, i).NoObstacle?
    && ReplyAt(world, plan, i).Returned?
    && !IsBlocked(ReplyAt(world, plan, i).value)
  }

  function ResultAt(world: World, plan: seq<Call>, i: nat): ToolResult
    requires i < |plan|
  {
    var reply := ReplyAt(world, plan, i);
    ToolResult(plan[i].tool, if reply.Returned? then reply.value else Null)
  }

  /** The results of the first n calls. */
  function Replies(world: World, plan: seq<Call>, n: nat): (results: seq<ToolResult>)
    requires n <= |plan|
    ensures |results| == n
  {
    seq(n, i requires 0 <= i < n => ResultAt(world, plan, i))
  }

  function Fail(results: seq<ToolResult>, blocker: string): Result<RunnerResult, Exception> {
    Ok(RunnerResult(Failed, results, Some(blocker)))
  }

  /** How a run ends that stops at the n-th call (from 0). */
  function StoppedAt(world: World, limits: Limits, plan: seq<Call>, n: nat): Result<RunnerResult, Exception>
    requires n < |plan| && forall i :: 0 <= i < n ==> Passes(world, limits, plan, i)
    requires !Passes(world, limits, plan, n)
  {
    var before := Replies(world, plan, n);
    match ObstacleAt(world, limits, plan, n)
    case CancelledFirst => Err(Cancelled)
    case OutOfTime => Fail(before, "timeout_exceeded")
    case NotAllowed => Fail(before, "tool_not_allowed:" + plan[n].tool)
    case NoObstacle =>
      if ReplyAt(world, plan, n).Raised? then Err(CallRaised)
      else
        var value := ReplyAt(world, plan, n).value;
        Ok(RunnerResult(Blocked, Replies(world, plan, n + 1), Some(BlockerOf(world, value))))
  }

  /** The run passes n calls; it completes there, or stops at the next one. */
  ghost predicate EndsAt(world: World, limits: Limits, plan: seq<Call>, n: nat,
                         outcome: Result<RunnerResult, Exception>, made: seq<Call>)
  {
    && n <= |plan| && (forall i :: 0 <= i < n ==> Passes(world, limits, plan, i))
    && if n == |plan| then outcome == Ok(RunnerResult(Completed, Replies(world, plan, n), None)) && made == plan
       else
         && !Passes(world, limits, plan, n) && outcome == StoppedAt(world, limits, plan, n)
         && made == if ObstacleAt(world, limits, plan, n).NoObstacle? then plan[..n + 1] else plan[..n]
  }

  // ----- the same run, told by what was called and why it ended -----

  /** The name that a listed object gives: its text, and the empty text when there is none. */
  ghost predicate Names(world: World, entries: Object, tool: string) {
    if "name" in entries && Truthy(entries["name"])
    then tool == match entries["name"] case Str(s) => s case other => world.show(other)
    else tool == ""
  }

  /** The tool is one of the allowed ones and some listed object bears its name. */
  ghost predicate Permitted(world: World, limits: Limits, tool: string) {
    && world.listing.Listed? && tool in limits.allowed
    && exists i :: 0 <= i < |world.listing.tools| && world.listing.tools[i].Dict? &&
         Names(world, world.listing.tools[i].entries, tool)
  }

  ghost predicate RepliedBlocked(v: Value) {
    v.Dict? && "status" in v.entries && v.entries["status"] == Str("blocked")
  }

  ghost predicate BlockerText(world: World, entries: Object, text: string) {
    if "error" in entries && Truthy(entries["error"])
    then text == match entries["error"] case Str(s) => s case other => world.show(other)
    else text == "tool_blocked"
  }

  predicate InTime(world: World, limits: Limits, i: nat) {
    world.clock(i) - world.clock(0) <= limits.maxWallClock
  }

  /** Before the i-th call (from 0) nobody had cancelled, time was left, and its tool was permitted. */
  ghost predicate Due(world: World, limits: Limits, plan: seq<Call>, i: nat)
    requires i < |plan|
  {
    !world.cancelled(i + 1) && InTime(world, limits, i + 1) && Permitted(world, limits, plan[i].tool)
  }

  /** The i-th call returned, and not a blocked status. */
  ghost predicate Unblocked(world: World, plan: seq<Call>, i: nat)
    requires i < |plan|
  {
    world.reply(plan[..i], plan[i]).Returned? && !RepliedBlocked(world.reply(plan[..i], plan[i]).value)
  }

  /** Every call made was due, and the run went on after all but the last. */
  ghost predicate CallsInOrder(world: World, limits: Limits, plan: seq<Call>, made: seq<Call>) {
    && made <= plan
    && (forall i: nat :: i < |made| ==> Due(world, limits, plan, i))
    && (forall i: nat :: i < |made| - 1 ==> Unblocked(world, plan, i))
  }

  /** One result for each call made: the tool's name and what the call returned. */
  ghost predicate ResultsOf(world: World, made: seq<Call>, results: seq<ToolResult>) {
    && |results| == |made|
    && forall i :: 0 <= i < |made| ==>
         && world.reply(made[..i], made[i]).Returned?
         && results[i] == ToolResult(made[i].tool, world.reply(made[..i], made[i]).value)
  }

  /** Why a run that reports a result ended after these calls. */
  ghost predicate ResultAccounts(world: World, limits: Limits, plan: seq<Call>, result: RunnerResult, made: seq<Call>)
    requires made <= plan
  {
    var n := |made|;
    match result.status
    case Completed => made == plan && GoesOn(world, made) && result.blocker == None
    case Blocked =>
      && n > 0 && LastReply(world, made).Returned? && RepliedBlocked(LastReply(world, made).value)
      && result.blocker.Some? && BlockerText(world, LastReply(world, made).value.entries, result.blocker.value)
    case Failed =>
      && n < |plan| && GoesOn(world, made) && !world.cancelled(n + 1)
      && if !InTime(world, limits, n + 1) then result.blocker == Some("timeout_exceeded")
         else !Permitted(world, limits, plan[n].tool) &&
              result.blocker == Some("tool_not_allowed:" + plan[n].tool)
  }

  ghost predicate Accounts(world: World, limits: Limits, plan: seq<Call>, outcome: Result<RunnerResult, Exception>,
                           made: seq<Call>)
  {
    if |plan| > limits.maxToolCalls then
      made == [] && outcome == Ok(RunnerResult(Failed, [], Some("runaway_orchestrator")))
    else if world.listing.ListingRaised? then
      made == [] && outcome == Err(ListingFailed)
    else
      && CallsInOrder(world, limits, plan, made)
      && match outcome
         case Err(ListingFailed) => false
         case Err(Cancelled) => |made| < |plan| && GoesOn(world, made) && world.cancelled(|made| + 1)
         case Err(CallRaised) => made != [] && LastReply(world, made).Raised?
         case Ok(result) =>
           ResultsOf(world, made, result.results) && ResultAccounts(world, limits, plan, result, made)
  }

  ghost function LastReply(world: World, made: seq<Call>): Reply
    requires made != []
  {
    world.reply(made[..|made| - 1], made[|made| - 1])
  }

  /** The last call made, if there is one, returned and was not blocked. */
  ghost predicate GoesOn(world: World, made: seq<Call>) {
    made != [] ==> LastReply(world, made).Returned? && !RepliedBlocked(LastReply(world, made).value)
  }

  /** The available tools are the allowed ones that a listed object names. */
  lemma AvailableIff(world: World, limits: Limits, tool: string)
    ensures tool in Available(world, limits) <==> Permitted(world, limits, tool)
  {
    if world.listing.Listed? {
      var tools := world.listing.tools;
      forall t | t in tools && t.Dict?
        ensures ShowOr(world, Get(t.entries, "name"), "") == tool <==> Names(world, t.entries, tool)
      {
      }
      hide Names, ShowOr;
      if Permitted(world, limits, tool) {
        var i :| 0 <= i < |tools| && tools[i].Dict? && Names(world, tools[i].entries, tool);
        assert tools[i] in tools;
      }
      if tool in Available(world, limits) {
        var t :| t in tools && t.Dict? && ShowOr(world, Get(t.entries, "name"), "") == tool;
        var i :| 0 <= i < |tools| && tools[i] == t;
        assert Names(world, tools[i].entries, tool);
      }
    }
  }

  lemma PassesIff(world: World, limits: Limits, plan: seq<Call>, i: nat)
    requires i < |plan|
    ensures Passes(world, limits, plan, i) <==> Due(world, limits, plan, i) && Unblocked(world, plan, i)
    ensures ObstacleAt(world, limits, plan, i).NoObstacle? <==> Due(world, limits, plan, i)
    ensures ObstacleAt(world, limits, plan, i) ==
            if world.cancelled(i + 1) then CancelledFirst else if !InTime(world, limits, i + 1) then OutOfTime
            else if !Permitted(world, limits, plan[i].tool) then NotAllowed else NoObstacle
  {
    AvailableIff(world, limits, plan[i].tool);
    hide Available, Permitted;
  }

  lemma LastReplyIs(world: World, plan: seq<Call>, n: nat)
    requires n < |plan|
    ensures LastReply(world, plan[..n + 1]) == ReplyAt(world, plan, n)
    ensures GoesOn(world, plan[..n + 1]) <==> Unblocked(world, plan, n)
  {
    OneMoreCall(plan, n);
  }

  /** What a run did until it had passed n calls. */
  lemma {:induction false} PassedCalls(world: World, limits: Limits, plan: seq<Call>, n: nat)
    requires n <= |plan| && forall i :: 0 <= i < n ==> Passes(world, limits, plan, i)
    ensures CallsInOrder(world, limits, plan, plan[..n]) && GoesOn(world, plan[..n])
    ensures ResultsOf(world, plan[..n], Replies(world, plan, n))
  {
    if n > 0 {
      PassedCalls(world, limits, plan, n - 1);
      assert Passes(world, limits, plan, n - 1);
      PassesIff(world, limits, plan, n - 1);
      LastCall(world, limits, plan, n - 1);
      LastReplyIs(world, plan, n - 1);
    }
  }

  /** And when it made one more call. */
  lemma LastCall(world: World, limits: Limits, plan: seq<Call>, n: nat)
    requires n < |plan| && CallsInOrder(world, limits, plan, plan[..n]) && GoesOn(world, plan[..n])
    requires ResultsOf(world, plan[..n], Replies(world, plan, n)) && Due(world, limits, plan, n)
    ensures CallsInOrder(world, limits, plan, plan[..n + 1])
    ensures ReplyAt(world, plan, n).Returned? ==> ResultsOf(world, plan[..n + 1], Replies(world, plan, n + 1))
  {
    hide Due, RepliedBlocked;
    if ReplyAt(world, plan, n).Returned? {
      RepliesSnoc(world, plan, n);
      ResultsSnoc(world, plan, n);
    }
    if n > 0 {
      LastReplyIs(world, plan, n - 1);
    }
    hide ResultsOf, Replies, LastReply, ReplyAt, Unblocked;
  }

  lemma OneMoreCall(plan: seq<Call>, n: nat)
    requires n < |plan|
    ensures plan[..n + 1] == plan[..n] + [plan[n]] && plan[..n + 1][..n] == plan[..n] && plan[..n + 1][n] == plan[n]
  {
  }

  lemma ResultsSnoc(world: World, plan: seq<Call>, n: nat)
    requires n < |plan| && ResultsOf(world, plan[..n], Replies(world, plan, n)) && ReplyAt(world, plan, n).Returned?
    ensures ResultsOf(world, plan[..n + 1], Replies(world, plan, n) + [ResultAt(world, plan, n)])
  {
    OneMoreCall(plan, n);
    hide Replies;
    var made := plan[..n + 1];
    forall i: nat | i < n
      ensures made[..i] == plan[..n][..i] && made[i] == plan[..n][i]
    {
    }
  }

  lemma EndAccounts(world: World, limits: Limits, plan: seq<Call>, n: nat, outcome: Result<RunnerResult, Exception>,
                    made: seq<Call>)
    requires |plan| <= limits.maxToolCalls && world.listing.Listed? && EndsAt(world, limits, plan, n, outcome, made)
    ensures Accounts(world, limits, plan, outcome, made)
  {
    PassedCalls(world, limits, plan, n);
    assert plan[..|plan|] == plan;
    if n < |plan| {
      PassesIff(world, limits, plan, n);
      LastReplyIs(world, plan, n);
      if ObstacleAt(world, limits, plan, n).NoObstacle? {
        LastCall(world, limits, plan, n);
        BlockerIs(world, ReplyAt(world, plan, n));
      }
    }
    hide Available, Permitted, InTime, ObstacleAt, Passes, IsBlocked, RepliedBlocked, BlockerText, BlockerOf,
         CallsInOrder, ResultsOf, LastReply, Replies, ReplyAt, Due;
  }

  lemma BlockerIs(world: World, reply: Reply)
    ensures reply.Returned? && reply.value.Dict? ==>
              BlockerText(world, reply.value.entries, BlockerOf(world, reply.value))
    ensures reply.Returned? && RepliedBlocked(reply.value) ==> reply.value.Dict?
  {
  }

  /** A run that made more than n calls met nothing in the way of the n-th (from 0). */
  lemma WentOn(world: World, limits: Limits, plan: seq<Call>, made: seq<Call>, n: nat)
    requires CallsInOrder(world, limits, plan, made) && n < |made|
    ensures n < |plan| && Due(world, limits, plan, n) && GoesOn(world, plan[..n])
  {
    hide Due;
    if n > 0 {
      assert Unblocked(world, plan, n - 1);
      LastReplyIs(world, plan, n - 1);
    }
  }

  /** Of two accounts of runs of a plan, neither makes more calls than the other. */
  lemma NoLongerAccount(world: World, limits: Limits, plan: seq<Call>, a: Result<RunnerResult, Exception>,
                        made: seq<Call>, b: Result<RunnerResult, Exception>, longer: seq<Call>)
    requires |plan| <= limits.maxToolCalls && world.listing.Listed?
    requires Accounts(world, limits, plan, a, made) && Accounts(world, limits, plan, b, longer)
    ensures |made| >= |longer|
  {
    hide Permitted, InTime, RepliedBlocked, BlockerText, ResultsOf;
    if |made| < |longer| {
      WentOn(world, limits, plan, longer, |made|);
      PrefixIs(plan, made);
      hide CallsInOrder;
      assert false;
    }
  }

  lemma PrefixIs(plan: seq<Call>, made: seq<Call>)
    requires made <= plan
    ensures made == plan[..|made|]
  {
  }

  /** The account is complete: it leaves one outcome and one sequence of calls to each world and plan. */
  lemma AccountUnique(world: World, limits: Limits, plan: seq<Call>, a: Result<RunnerResult, Exception>,
                      made: seq<Call>, b: Result<RunnerResult, Exception>, made': seq<Call>)
    requires Accounts(world, limits, plan, a, made) && Accounts(world, limits, plan, b, made')
    ensures a == b && made == made'
  {
    if |plan| <= limits.maxToolCalls && world.listing.Listed? {
      NoLongerAccount(world, limits, plan, a, made, b, made');
      NoLongerAccount(world, limits, plan, b, made', a, made);
      assert made == made' by {
        assert made == plan[..|made|] && made' == plan[..|made'|];
      }
      if a.Ok? && b.Ok? {
        SameResults(world, made, a.value.results, b.value.results);
      }
      hide CallsInOrder, Permitted, InTime, ResultsOf, RepliedBlocked;
    }
  }

  lemma SameResults(world: World, made: seq<Call>, results: seq<ToolResult>, results': seq<ToolResult>)
    requires ResultsOf(world, made, results) && ResultsOf(world, made, results')
    ensures results == results'
  {
  }

  /** `run_tool_plan`, with the calls made to the adapter */
  method RunToolPlan(world: World, limits: Limits, plan: seq<Call>)
    returns (outcome: Result<RunnerResult, Exception>, made: seq<Call>)
    ensures made <= plan && (made == [] || |made| <= limits.maxToolCalls)
    ensures Accounts(world, limits, plan, outcome, made)
    ensures forall i :: 0 <= i < |made| ==> made[i].tool in limits.allowed && Permitted(world, limits, made[i].tool)
    ensures |plan| > limits.maxToolCalls ==> outcome == Fail([], "runaway_orchestrator") && made == []
    ensures |plan| <= limits.maxToolCalls && world.listing.ListingRaised? ==>
            outcome == Err(ListingFailed) && made == []
    ensures outcome.Ok? && outcome.value.status == Completed ==> made == plan && |outcome.value.results| == |plan|
    ensures |plan| <= limits.maxToolCalls && world.listing.Listed? ==>
              exists n :: EndsAt(world, limits, plan, n, outcome, made)
  {
    made := [];
    if |plan| > limits.maxToolCalls {
      return Fail([], "runaway_orchestrator"), made;
    }
    if world.listing.ListingRaised? {
      return Err(ListingFailed), made;
    }
    var started := world.clock(0);
    var available := Available(world, limits);
    var results: seq<ToolResult> := [];
    for index := 1 to |plan| + 1
      invariant made == plan[..index - 1]
      invariant forall i :: 0 <= i < index - 1 ==> Passes(world, limits, plan, i)
      invariant results == Replies(world, plan, index - 1)
    {
      hide Replies, Available, IsBlocked, Accounts, Permitted;
      var n := index - 1;
      var call := plan[n];
      if world.cancelled(index) {
        assert EndsAt(world, limits, plan, n, Err(Cancelled), made);
        Report(world, limits, plan, n, Err(Cancelled), made);
        return Err(Cancelled), made;
      }
      if index > limits.maxToolCalls {
        // The plan was measured before the loop.
        assert false;
      }
      if world.clock(index) - started > limits.maxWallClock {
        assert EndsAt(world, limits, plan, n, Fail(results, "timeout_exceeded"), made);
        Report(world, limits, plan, n, Fail(results, "timeout_exceeded"), made);
        return Fail(results, "timeout_exceeded"), made;
      }
      if call.tool !in available {
        assert EndsAt(world, limits, plan, n, Fail(results, "tool_not_allowed:" + call.tool), made);
        Report(world, limits, plan, n, Fail(results, "tool_not_allowed:" + call.tool), made);
        return Fail(results, "tool_not_allowed:" + call.tool), made;
      }
      var reply := world.reply(made, call);
      made := made + [call];
      assert made == plan[..n + 1];
      if reply.Raised? {
        assert EndsAt(world, limits, plan, n, Err(CallRaised), made);
        Report(world, limits, plan, n, Err(CallRaised), made);
        return Err(CallRaised), made;
      }
      results := results + [ToolResult(call.tool, reply.value)];
      RepliesSnoc(world, plan, n);
      if IsBlocked(reply.value) {
        BlockedIsDict(reply.value);
        outcome := Ok(RunnerResult(Blocked, results, Some(BlockerOf(world, reply.value))));
        assert EndsAt(world, limits, plan, n, outcome, made);
        Report(world, limits, plan, n, outcome, made);
        return outcome, made;
      }
    }
    outcome := Ok(RunnerResult(Completed, results, None));
    assert made == plan;
    assert EndsAt(world, limits, plan, |plan|, outcome, made);
    Report(world, limits, plan, |plan|, outcome, made);
    return outcome, made;
  }

  /** What a run that ends at the n-th call tells. */
  lemma Report(world: World, limits: Limits, plan: seq<Call>, n: nat, outcome: Result<RunnerResult, Exception>,
               made: seq<Call>)
    requires |plan| <= limits.maxToolCalls && world.listing.Listed? && EndsAt(world, limits, plan, n, outcome, made)
    ensures Accounts(world, limits, plan, outcome, made)
    ensures forall i :: 0 <= i < |made| ==> made[i].tool in limits.allowed && Permitted(world, limits, made[i].tool)
    ensures made <= plan && (outcome.Ok? && outcome.value.status == Completed ==>
                             made == plan && |outcome.value.results| == |plan|)
  {
    EndAccounts(world, limits, plan, n, outcome, made);
    hide InTime, RepliedBlocked, BlockerText, EndsAt;
    forall i | 0 <= i < |made|
      ensures made[i].tool in limits.allowed && Permitted(world, limits, made[i].tool)
    {
      assert made[i] == plan[i] && Due(world, limits, plan, i);
    }
  }

  lemma RepliesSnoc(world: World, plan: seq<Call>, n: nat)
    requires n < |plan|
    ensures Replies(world, plan, n + 1) == Replies(world, plan, n) + [ResultAt(world, plan, n)]
  {
  }

  lemma BlockedIsDict(v: Value)
    requires IsBlocked(v)
    ensures v.Dict?
  {
  }

  /** Only the last result can be blocked, and it is exactly when the run reports so. */
  lemma OnlyLastBlocked(world: World, limits: Limits, plan: seq<Call>, n: nat, outcome: Result<RunnerResult, Exception>,
                        made: seq<Call>)
    requires EndsAt(world, limits, plan, n, outcome, made) && outcome.Ok?
    ensures var results := outcome.value.results;
            && (forall i :: 0 <= i < |results| - 1 ==> !IsBlocked(results[i].value))
            && (outcome.value.status == Blocked <==> results != [] && IsBlocked(results[|results| - 1].value))
            && |results| == |made| && forall i :: 0 <= i < |results| ==> results[i].tool == made[i].tool
  {
    hide IsBlocked, Available, ObstacleAt, ReplyAt;
    var results := outcome.value.results;
    forall i | 0 <= i < n
      ensures !IsBlocked(results[i].value)
    {
      assert Passes(world, limits, plan, i);
    }
  }

  /** A completed run went through the whole plan, and a run that meets no obstacle completes. */
  lemma CompletedIff(world: World, limits: Limits, plan: seq<Call>, n: nat, outcome: Result<RunnerResult, Exception>,
                     made: seq<Call>)
    requires EndsAt(world, limits, plan, n, outcome, made)
    ensures outcome.Ok? && outcome.value.status == Completed <==>
            forall i :: 0 <= i < |plan| ==> Passes(world, limits, plan, i)
    ensures outcome.Ok? && outcome.value.status == Completed ==>
              made == plan && |outcome.value.results| == |plan| && outcome.value.blocker == None
  {
    hide IsBlocked, Available;
  }

  lemma SamePrefix(world: World, limits: Limits, plan: seq<Call>, more: seq<Call>, i: nat)
    requires i < |plan|
    ensures ObstacleAt(world, limits, plan + more, i) == ObstacleAt(world, limits, plan, i)
    ensures ReplyAt(world, plan + more, i) == ReplyAt(world, plan, i)
    ensures Passes(world, limits, plan + more, i) <==> Passes(world, limits, plan, i)
  {
    assert (plan + more)[..i] == plan[..i];
  }

  /** A run that stops short ends the same way however the plan goes on. */
  lemma StopIgnoresTheRest(world: World, limits: Limits, plan: seq<Call>, more: seq<Call>, n: nat, k: nat,
                           outcome: Result<RunnerResult, Exception>, made: seq<Call>,
                           outcome': Result<RunnerResult, Exception>, made': seq<Call>)
    requires EndsAt(world, limits, plan, n, outcome, made) && n < |plan|
    requires EndsAt(world, limits, plan + more, k, outcome', made')
    ensures k == n && outcome' == outcome && made' == made
  {
    hide IsBlocked, Available, ObstacleAt, ReplyAt;
    forall i | 0 <= i <= n
      ensures Passes(world, limits, plan + more, i) <==> Passes(world, limits, plan, i)
      ensures ReplyAt(world, plan + more, i) == ReplyAt(world, plan, i)
    {
      SamePrefix(world, limits, plan, more, i);
    }
    SamePrefix(world, limits, plan, more, n);
    assert k == n;
    assert Replies(world, plan + more, n) == Replies(world, plan, n);
    assert (plan + more)[..n] == plan[..n] && (plan + more)[..n + 1] == plan[..n + 1];
    if ObstacleAt(world, limits, plan, n).NoObstacle? && ReplyAt(world, plan, n).Returned? {
      assert Replies(world, plan + more, n + 1) == Replies(world, plan, n + 1);
    }
  }
}

/**
 The proposal generator: at most one repair pass, one recorded outcome per generation, and one recorded
 fallback for every proposal that the model did not make.
 */
module Generation {
  import opened Basics
  import opened JsonScanner
  import opened ModelCalls
  import opened PythonText
  import opened ToolValues

  /** Where a proposal came from; the model's own carries the validated JSON. */
  datatype Proposal = Empty | Heuristic | Generated(output: Value)

  /** `json.loads` (None: an exception) and the validation against the output contract. */
  datatype Contract = Contract(loads: string -> Option<Value>, accepts: Value -> bool)

  /** `_parse_output`, without the description of what went wrong */
  ghost function Parsed(text: string, contract: Contract): Option<Value> {
    match GeneratorObject(text)
    case None => None
    case Some(b) =>
      match contract.loads(b)
      case None => None
      case Some(v) => if contract.accepts(v) then Some(v) else None
  }

  method ParseOutput(text: string, contract: Contract) returns (output: Option<Value>)
    ensures output == Parsed(text, contract)
  {
    hide GeneratorObject;
    var block := ExtractForGenerator(text);
    if block.None? {
      return None;
    }
    var parsed := contract.loads(block.value);
    if parsed.None? || !contract.accepts(parsed.value) {
      return None;
    }
    return parsed;
  }

  /** The text that a call starting with the `first` post ends with. */
  function Reply(provider: Provider, maxRetries: int, first: nat): Option<string> {
    if maxRetries < 0 then None
    else
      var n := Tries(provider, first, maxRetries);
      GeneratorVerdict(provider(first + n - 1))
  }

  /** The generator never gets an empty reply, so it never records the outcome `empty`. */
  lemma ReplyNotEmpty(provider: Provider, maxRetries: int, first: nat)
    ensures Reply(provider, maxRetries, first) != Some("")
  {
    hide GeneratorVerdict, Tries;
    if maxRetries >= 0 {
      GeneratorTextNotEmpty(provider(first + Tries(provider, first, maxRetries) - 1));
    }
  }

  function PostsOf(provider: Provider, maxRetries: int, first: nat): nat {
    if maxRetries < 0 then 0 else Tries(provider, first, maxRetries)
  }

  /** The generation needs its repair pass: there was a text, and it could not be used. */
  ghost predicate NeedsRepair(provider: Provider, maxRetries: int, first: nat, contract: Contract) {
    Reply(provider, maxRetries, first).Some? && Parsed(Reply(provider, maxRetries, first).value, contract).None?
  }

  ghost function GenerationPosts(provider: Provider, maxRetries: int, first: nat, contract: Contract): nat {
    var n := PostsOf(provider, maxRetries, first);
    if NeedsRepair(provider, maxRetries, first, contract) then n + PostsOf(provider, maxRetries, first + n) else n
  }

  /** What one call sleeps for in all: backoff times 1 + 2 + ... over its retries. */
  function SleepOf(provider: Provider, maxRetries: int, backoff: real, first: nat): real {
    if maxRetries < 0 then 0.0 else backoff * Triangle(Tries(provider, first, maxRetries) - 1) as real
  }

  ghost function GenerationSleep(provider: Provider, maxRetries: int, backoff: real, first: nat,
                                 contract: Contract): real {
    var once := SleepOf(provider, maxRetries, backoff, first);
    if NeedsRepair(provider, maxRetries, first, contract)
    then once + SleepOf(provider, maxRetries, backoff, first + PostsOf(provider, maxRetries, first))
    else once
  }

  /** The output of a generation, from the first reply or from the repaired one. */
  ghost function GenerationOutput(provider: Provider, maxRetries: int, first: nat, contract: Contract): Option<Value> {
    var text := Reply(provider, maxRetries, first);
    if text.None? then None
    else if !NeedsRepair(provider, maxRetries, first, contract) then Parsed(text.value, contract)
    else
      var repaired := Reply(provider, maxRetries, first + PostsOf(provider, maxRetries, first));
      if repaired.Some? then Parsed(repaired.value, contract) else None
  }

  ghost function GenerationOutcome(provider: Provider, maxRetries: int, first: nat, contract: Contract): string {
    if Reply(provider, maxRetries, first).None? then "error"
    else if GenerationOutput(provider, maxRetries, first, contract).None? then "parse_error"
    else "success"
  }

  /** A generation posts at most twice as often as one call may. */
  lemma GenerationBounded(provider: Provider, maxRetries: int, first: nat, contract: Contract)
    requires maxRetries >= 0
    ensures 1 <= GenerationPosts(provider, maxRetries, first, contract) <= 2 * (maxRetries + 1)
  {
    hide Parsed, Tries, GeneratorVerdict;
    TriesIs(provider, first, maxRetries);
    TriesIs(provider, first + Tries(provider, first, maxRetries), maxRetries);
  }

  /** The recorded outcome is `success` exactly when the generation has an output, which the contract accepts. */
  lemma OutcomeTells(provider: Provider, maxRetries: int, first: nat, contract: Contract)
    ensures var output := GenerationOutput(provider, maxRetries, first, contract);
            && (GenerationOutcome(provider, maxRetries, first, contract) == "success" <==> output.Some?)
            && (output.Some? ==> contract.accepts(output.value))
  {
    hide GeneratorObject, Reply;
  }

  // ----- a generation told call by call -----

  ghost predicate Retried(r: Response) {
    r.NetworkDown? || (r.Answer? && IsTransientStatus(r.status))
  }

  /** A call of n posts from the `first` on that ends with this text: every post but the last had to be retried. */
  ghost predicate CallEnds(provider: Provider, maxRetries: int, first: nat, n: nat, text: Option<string>) {
    if maxRetries < 0 then n == 0 && text == None
    else
      && 1 <= n <= maxRetries + 1
      && (forall i :: first <= i < first + n - 1 ==> Retried(provider(i)))
      && (n == maxRetries + 1 || !Retried(provider(first + n - 1)))
      && text == GeneratorVerdict(provider(first + n - 1))
  }

  /** The text holds an object that decodes to this value, and the contract accepts it. */
  ghost predicate Yields(text: string, contract: Contract, v: Value) {
    && GeneratorObject(text).Some? && contract.loads(GeneratorObject(text).value) == Some(v) && contract.accepts(v)
  }

  ghost predicate Useless(text: string, contract: Contract) {
    forall v :: !Yields(text, contract, v)
  }

  /** A second call is made exactly after a text that yields nothing, and then its text decides. */
  ghost predicate Generates(provider: Provider, maxRetries: int, first: nat, contract: Contract,
                            output: Option<Value>, outcome: string, posts: nat)
  {
    exists n, text :: CallEnds(provider, maxRetries, first, n, text) && Continues(provider, maxRetries, first, n, text,
                                                                                  contract, output, outcome, posts)
  }

  ghost predicate Continues(provider: Provider, maxRetries: int, first: nat, n: nat, text: Option<string>,
                            contract: Contract, output: Option<Value>, outcome: string, posts: nat)
  {
    match text
    case None => output == None && outcome == "error" && posts == n
    case Some(t) =>
      if Useless(t, contract) then
        posts >= n && Repairs(provider, maxRetries, first + n, contract, output, outcome, posts - n)
      else posts == n && output.Some? && Yields(t, contract, output.value) && outcome == "success"
  }

  ghost predicate Repairs(provider: Provider, maxRetries: int, first: nat, contract: Contract,
                          output: Option<Value>, outcome: string, posts: nat)
  {
    exists text :: CallEnds(provider, maxRetries, first, posts, text) && Decides(text, contract, output, outcome)
  }

  /** The text of the repair call is the last word. */
  ghost predicate Decides(text: Option<string>, contract: Contract, output: Option<Value>, outcome: string) {
    match output
    case Some(v) => text.Some? && Yields(text.value, contract, v) && outcome == "success"
    case None => (text.None? || Useless(text.value, contract)) && outcome == "parse_error"
  }

  lemma CallEndsAt(provider: Provider, maxRetries: int, first: nat)
    ensures CallEnds(provider, maxRetries, first, PostsOf(provider, maxRetries, first),
                     Reply(provider, maxRetries, first))
  {
    hide GeneratorVerdict;
    if maxRetries >= 0 {
      TriesIs(provider, first, maxRetries);
      assert forall i: nat :: Retried(provider(i)) <==> Transient(provider(i));
    }
  }

  lemma ParsedIs(text: string, contract: Contract)
    ensures Parsed(text, contract).Some? ==> Yields(text, contract, Parsed(text, contract).value)
    ensures Parsed(text, contract).None? <==> Useless(text, contract)
  {
    hide GeneratorObject;
    if Parsed(text, contract).Some? {
      assert Yields(text, contract, Parsed(text, contract).value);
    }
  }

  /** What a generation returns, records and posts is what its calls lead to. */
  lemma GenerationTold(provider: Provider, maxRetries: int, first: nat, contract: Contract)
    ensures Generates(provider, maxRetries, first, contract,
                      GenerationOutput(provider, maxRetries, first, contract),
                      GenerationOutcome(provider, maxRetries, first, contract),
                      GenerationPosts(provider, maxRetries, first, contract))
  {
    hide Parsed, Reply, PostsOf, CallEnds, Yields, Useless;
    var n, text := PostsOf(provider, maxRetries, first), Reply(provider, maxRetries, first);
    CallEndsAt(provider, maxRetries, first);
    CallEndsAt(provider, maxRetries, first + n);
    if text.Some? {
      ParsedIs(text.value, contract);
      var text' := Reply(provider, maxRetries, first + n);
      if text'.Some? {
        ParsedIs(text'.value, contract);
      }
    }
  }

  class Generator {
    const apiKey: string
    const contract: Contract
    const client: Client
    var requests: seq<string>
    var fallbacks: seq<string>

    constructor (apiKey: string, contract: Contract, client: Client)
      ensures this.apiKey == apiKey && this.contract == contract && this.client == client
      ensures requests == [] && fallbacks == []
    {
      this.apiKey, this.contract, this.client := apiKey, contract, client;
      requests, fallbacks := [], [];
    }

    /** `_generate_with_anthropic` */
    method GenerateWithAnthropic() returns (output: Option<Value>)
      modifies this`requests, client
      ensures output == GenerationOutput(client.provider, client.maxRetries, old(client.posts), contract)
      ensures requests == old(requests) +
                          [GenerationOutcome(client.provider, client.maxRetries, old(client.posts), contract)]
      ensures client.posts == old(client.posts) +
                              GenerationPosts(client.provider, client.maxRetries, old(client.posts), contract)
      ensures |requests| == |old(requests)| + 1 && client.posts >= old(client.posts)
      ensures Generates(client.provider, client.maxRetries, old(client.posts), contract, output,
                        requests[|requests| - 1], client.posts - old(client.posts))
      ensures client.slept == old(client.slept) + GenerationSleep(client.provider, client.maxRetries, client.backoff,
                                                                  old(client.posts), contract)
    {
      hide Parsed, Tries, GeneratorVerdict, Generates, Triangle;
      ghost var first := client.posts;
      GenerationTold(client.provider, client.maxRetries, first, contract);
      var text := client.CallForGenerator();
      assert text == Reply(client.provider, client.maxRetries, first);
      if text.None? {
        requests := requests + ["error"];
        return None;
      }
      if text.value == "" {
        // A blank reply was already turned into no reply.
        ReplyNotEmpty(client.provider, client.maxRetries, first);
        assert false;
      }
      output := ParseOutput(text.value, contract);
      if output.None? {
        ghost var again := client.posts;
        var repaired := client.CallForGenerator();
        assert repaired == Reply(client.provider, client.maxRetries, again);
        ReplyNotEmpty(client.provider, client.maxRetries, again);
        if repaired.Some? && repaired.value != "" {
          output := ParseOutput(repaired.value, contract);
        }
        if output.None? {
          requests := requests + ["parse_error"];
          return None;
        }
      }
      requests := requests + ["success"];
    }

    /** `generate` */
    method Generate(userMessage: Option<string>) returns (proposal: Proposal)
      modifies this, client
      ensures var blank := userMessage.None? || Strip(userMessage.value) == "";
              var output := GenerationOutput(client.provider, client.maxRetries, old(client.posts), contract);
              if blank then
                && proposal == Empty && fallbacks == old(fallbacks) + ["empty_user_message"]
                && requests == old(requests) && client.posts == old(client.posts)
              else if apiKey == "" then
                && proposal == Heuristic && fallbacks == old(fallbacks) + ["missing_api_key"]
                && requests == old(requests) && client.posts == old(client.posts)
              else
                && requests == old(requests) +
                               [GenerationOutcome(client.provider, client.maxRetries, old(client.posts), contract)]
                && client.posts == old(client.posts) +
                                   GenerationPosts(client.provider, client.maxRetries, old(client.posts), contract)
                && if output.Some? then proposal == Generated(output.value) && fallbacks == old(fallbacks)
                   else proposal == Heuristic && fallbacks == old(fallbacks) + ["provider_failure"]
    {
      hide GenerationOutput, GenerationOutcome, GenerationPosts, Strip;
      if userMessage.None? || Strip(userMessage.value) == "" {
        fallbacks := fallbacks + ["empty_user_message"];
        return Empty;
      }
      if apiKey != "" {
        var generated := GenerateWithAnthropic();
        if generated.Some? {
          return Generated(generated.value);
        }
        fallbacks := fallbacks + ["provider_failure"];
      } else {
        fallbacks := fallbacks + ["missing_api_key"];
      }
      return Heuristic;
    }
  }
}

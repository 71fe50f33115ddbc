# Ruhu agent core: a verified model

This project models the parts of Ruhu whose behaviour is an algorithm rather than plumbing, and proves what
they promise. Verify it with `dafny verify dfyconfig.toml` (add `--resource-limit 2000000`).

| Area | Files |
|---|---|
| JSON objects in model replies | `JsonScanner`, `JsonGrammar` (RFC 8259, sections 2 to 7), `JsonBalance` |
| Calls to the model provider | `ModelCalls`, `DocsPage`, `Generation` |
| Composite tools compiled to code | `CompositeChain`, `CompositeCodegen`, `GeneratedText`, `CodegenCorrectness`, `CodegenStatic`, `ToolValues` |
| Agent document graph | `AgentDocument`, `Reachability`, `GraphMoves`, `PythonDict`, `CompiledDocument`, `EntryMeaning`, `StartScenario` |
| Publish gate | `PublishValidation`, `PublishReadiness`, `PublishTheorems`, `PublishMeaning`, `ReportMeaning`, `PublishGate` |
| Version review | `KeyedDiff`, `VersionDiff`, `LatencyStats` |
| Data migrations | `EdgeOutcomes`, `FallbackPolicy`, `Backfill`, `BackfillTheorems` |
| Bounded plan runner | `PlanRunner` |
| Shared | `Basics`, `Ordering`, `PythonText` |

How to read it. Code that works step by step is a method with its loop, proved against a specification that
says what the result means; what the source promises is then proved about the specification, and the
specification functions themselves are characterised by relations that do not name them, with the source's
constants and labels spelt out (`EdgeIff`, `ReportedIff`, `FateTold`, `Accounts`, `CodeText`). Objects that are
edited in place (a stored step, the table of connections, a heap of JSON objects, the parser and the generator
with their counters) are classes or arrays. Exceptions are `Err` or `None` results. Everything outside the code
is an oracle that the claims quantify over: the tool runtime, the tool adapter, the clock and the cancellation
token, the n-th response of the model provider, the cipher, `json.loads`, `repr`, `str` of a value that is no
string, `str.upper` and `str.lower`.

The main results, each a statement about all inputs or all runs:

- Extraction: `ScannersAgree` (the two brace scanners agree on a text if and only if no trusted fence holds
  anything but one balanced object), `BalancedIff` (what balanced means, without a state machine), `ObjectRecovered`
  and `FencedObjectRecoveredByBoth` (every object text of the JSON grammar is recovered).
- Composite compiler: `TextReadsBack` (the generated text, read by its literal templates, is the compiled program),
  `CompilerCorrect` (one run agrees if and only if every step reached is safe),
  `CallsAlwaysAgreeIff` and `AlwaysAgreesIff` (all runs agree if and only if a condition on the steps and the
  arguments alone holds).
- Agent graph: `ReachableOnConstructed` (exact reachability along transitions and routes), `ReportedIff` (the report
  holds exactly the issues that the document deserves), `ConstructedNeverStuck`, `ValidIffReady`, `NoRunGetsStuck`,
  `StepIndexRefines` and its companions (indexes equal scans), `EntryDescribesStep`, `CanPublishIff`.
- Version review: `DiffIff`, `DiffIsPatch`, `DiffAntisymmetric`, `DiffBalances`, `StepReportedIff`, `StepChangesSay`.
- Migrations: `Judge` and `Migrate` (told by the stored conditions alone), `MigratedIsModern`, `SecondRunDoesNothing`,
  `FlagTellsIff`; `ReplaceBounded`, `ClearsAllIff`; `Run`, `CompleteIff`, `ResumeCompletes`.
- Model calls: `CallForDocs`, `Parse`, `UnrecordedIff`, `GenerateWithAnthropic` (posts, sleep, recorded outcomes and
  fallbacks over every response sequence, including the one case in which a request is not recorded).
- Plan runner: `RunToolPlan` (a complete account of every run), `AccountUnique`, `StopIgnoresTheRest`.

## Where the code departs from what its documentation says

The model follows the code in each case.

- `scripts/prototype_composite_to_code.py:84` promises code equivalent to the step list. It is not for an empty
  list (the composite reports an error, the code succeeds), for colliding identifiers, for a path through a
  truthy scalar (the composite yields None, the chained `.get` raises), for the key `args` (shadowed by the
  variable of that name), or for values nested deeper than five levels (coerced to text by
  `src/ruhu/code_execution.py:58-70`). `CallsAlwaysAgreeIff` gives the exact condition; `EmptyListDiffers`,
  `CollisionDiffers`, `ScalarPathDiffers`, `ArgsKeyDiffers` and `DeepArgumentDiffers` are the failing inputs.
- A failing sub-call ends a composite with the sub-call's own status
  (`src/ruhu/tools/executors/composite.py:83-94`), but the generated code always with `error`: `StatusMatches`,
  `StatusDiffers`.
- `src/ruhu/atlas_generator.py:76-86` promises the first balanced object. A trusted fence is returned whole, balanced or
  not: `ScannersAgree`, `ScannersDiffer`.
- `src/ruhu/atlas_docs_parser.py:284-292` promises None on any failure and one recorded outcome per request. The
  parse catches only decode errors: when `json.loads` raises anything else (an integer literal beyond the digit
  limit, nesting beyond the recursion limit) it raises and records nothing, and on two malformed shapes of a decoded
  reply it raises after recording `ok`: `RaisesIff`, `UnrecordedIff`, `LongIntegerEscapes`, `NumberRaises`.
- `src/ruhu/atlas_generator.py:322-328` handles an empty reply, which cannot arrive: `ReplyNotEmpty`.
- `src/ruhu/atlas_adk_runner.py:109-110` checks the call index inside the loop; the plan was measured before it, so the
  branch is dead (`RunToolPlan` proves it).
- `scripts/migrate_to_edge_outcomes.py:74` accepts event names that the new schema (`src/ruhu/schemas.py:70`, `311`)
  refuses: `TranslatedEventAcceptedIff`, `ShortNameRefused`.
- `scripts/migrate_to_edge_outcomes.py:101` promises True if anything changed. Null hints on an otherwise modern step
  are removed without a report, so the row is not stored: `FlagTellsIff`, `NullHintsGoUnreported`,
  `DocumentUnwrittenIff`.
- `scripts/backfill_encrypt_credentials.py:279-281` takes a batch without updates for the end of the table:
  `CompleteIff`, `EmptyValueStarves`, and `ResumeStarves` for a resumed run.
- `alembic/versions/20260501_2000_0078_fallback_policy_bounded_to_permissive.py:130-134` does not enter lists inside
  lists: `ClearsAllIff`, `NestedListSkipped`.
- `src/ruhu/agent_review.py:237` checks no tool at all when the runtime lists none: `CanPublishIff`,
  `EmptyListingBlocksNothing`.
- `src/ruhu/agent_review.py:467-480` compares fields that leave two fields of a step invisible: `InvisibleEdits`,
  `ThresholdIsInvisible`.

## Model

| member | source | states |
|---|---|---|
| JsonScanner.ExtractForDocs | src/ruhu/atlas_docs_parser.py:106-140 | The docs scanner returns exactly the balanced object that starts at the first opening brace, or None when that brace is never closed |
| JsonScanner.ExtractFromFirstBrace | src/ruhu/atlas_generator.py:101-126 | The generator's walk from the first brace finds that same object although it is structured differently |
| JsonScanner.ExtractForGenerator | src/ruhu/atlas_generator.py:87-126 | A trusted fence is returned whole, otherwise the first object of the stripped text |
| JsonScanner.FirstObjectUnique | src/ruhu/atlas_docs_parser.py:107-114 | At one position at most one balanced object starts, so the first object is well defined |
| JsonScanner.FirstObjectOfStripped | src/ruhu/atlas_generator.py:87-89 | Stripping a text never changes which object is found |
| JsonScanner.FenceBodyIsGroup | src/ruhu/atlas_generator.py:91-93 | Every way the fence pattern can match, with a greedy tag, captures the same stripped group that the model computes |
| JsonScanner.FenceBodyMatches | src/ruhu/atlas_generator.py:91-93 | Conversely a fence is found only where the pattern matches |
| JsonScanner.TrustedFenceIsFirst | src/ruhu/atlas_generator.py:94-99 | The content of a trusted fence begins at the first brace of the text |
| JsonScanner.ScannersAgree | src/ruhu/atlas_generator.py:87-126 | On every text the two scanners agree if and only if no trusted fence holds anything but one balanced object |
| JsonScanner.ScannersDiffer | src/ruhu/atlas_generator.py:87-99 | A fence around a lone brace is such a text: one scanner returns the brace, the other finds no object |
| JsonScanner.ExtractedObjectStable | src/ruhu/atlas_docs_parser.py:116-140 | Both scanners return an extracted object unchanged when run on it again |
| JsonScanner.ExtractedObjectMinimal | src/ruhu/atlas_docs_parser.py:136-139 | No proper prefix of an extracted object is balanced |
| JsonScanner.FencedObjectRecovered | src/ruhu/atlas_generator.py:76-99 | A balanced object in a fence is recovered exactly, whatever the spacing and the case of the tag |
| JsonBalance.BalancedIff | src/ruhu/atlas_docs_parser.py:107-140 | A text is balanced if and only if it opens and closes with a brace and what lies between divides into string literals, with their escapes, and other characters whose braces nest |
| JsonGrammar.QuotedSettles | src/ruhu/atlas_docs_parser.py:120-131 | No string literal of RFC 8259, whatever braces, quotes and escapes it holds, moves the scanner |
| JsonGrammar.ValueSettles | src/ruhu/atlas_docs_parser.py:116-140 | No JSON value of the grammar, at any nesting, changes the scanner's depth or takes it below where it started |
| JsonGrammar.ObjectBalanced | src/ruhu/atlas_docs_parser.py:110-114 | Every object text of the grammar is balanced in the scanners' sense |
| JsonGrammar.ObjectRecovered | src/ruhu/atlas_docs_parser.py:106-140 | Any object text after prose without a brace, whatever follows it, is returned exactly by the docs scanner |
| JsonGrammar.ObjectRecoveredByGenerator | src/ruhu/atlas_generator.py:73-126 | The generator's scanner returns it too if and only if it trusts no fence with other content |
| JsonGrammar.FencedObjectRecoveredByBoth | src/ruhu/atlas_generator.py:76-99 | Both scanners recover a fenced object text |
| ModelCalls.TriesIs | src/ruhu/atlas_generator.py:261-294 | A call posts until the first response that is not transient, and at most once more than it may retry |
| ModelCalls.ExtractText | src/ruhu/atlas_docs_parser.py:451-465 | The text is that of the first text block that is not blank, and None exactly when there is none |
| ModelCalls.FirstTextUnique | src/ruhu/atlas_docs_parser.py:451-465 | That text is determined by the payload and never empty, so the branch for an empty text and the one for no text are the same |
| ModelCalls.ReadTold | src/ruhu/atlas_generator.py:58-70 | The generator reads the non-blank text blocks in order, joined by line breaks; a text that is no string raises, and no content is no text |
| ModelCalls.Client.CallForDocs | src/ruhu/atlas_docs_parser.py:405-448 | Over every response sequence: the number of posts, sleep of backoff times k(k+1)/2 after k retries, and text and outcome as the last response dictates |
| ModelCalls.Client.CallForGenerator | src/ruhu/atlas_generator.py:241-295 | The same accounting for the generator, whose loop is written differently |
| DocsPage.EndpointsWellFormed | src/ruhu/atlas_docs_parser.py:150-176 | Every endpoint kept has a known method and a path from the root |
| DocsPage.EndpointsSurvive | src/ruhu/atlas_docs_parser.py:150-176 | The endpoints kept are, in order, exactly the entries that survive, each with its method, path, operation id, summary and authentication flag as the entry gives them |
| DocsPage.AuthFieldsAre | src/ruhu/atlas_docs_parser.py:178-187 | The fields kept are distinct, known, and exactly those that some entry normalises to |
| DocsPage.AuthFirstNamed | src/ruhu/atlas_docs_parser.py:178-187 | They stand in the order in which entries first name them, as lower-cased slugs |
| DocsPage.CollectAuthFields | src/ruhu/atlas_docs_parser.py:178-187 | The loop with its `seen` set keeps each known field at its first occurrence |
| DocsPage.NormalizeExtraction | src/ruhu/atlas_docs_parser.py:143-201 | Cleaning succeeds exactly on iterable shapes and then yields, said of the raw reply alone, the surviving endpoints among the first fifty, the fields in order of first naming, and the two names |
| DocsPage.ExtractionBounded | src/ruhu/atlas_docs_parser.py:146-152 | At most fifty endpoints and four fields survive, whatever the model returned |
| DocsPage.RaisesIff | src/ruhu/atlas_docs_parser.py:284-339 | A parse raises if and only if decoding raises anything but a decode error, or the reply decoded to an object with one of two malformed shapes, and with which exception |
| DocsPage.UnrecordedIff | src/ruhu/atlas_docs_parser.py:315-339 | A request goes unrecorded if and only if decoding its reply raises; a fallback is recorded exactly when None is returned, and an extraction only with ok |
| DocsPage.LongIntegerEscapes | src/ruhu/atlas_docs_parser.py:324-332 | A reply whose only fault is an integer beyond the digit limit raises, with neither an outcome nor a fallback recorded |
| DocsPage.NumberRaises | src/ruhu/atlas_docs_parser.py:150-181 | A number in place of either list is one of the malformed shapes that raise |
| DocsPage.EmbeddedObjectIsRead | src/ruhu/atlas_docs_parser.py:315-338 | A serialised object embedded in prose is what the parse decodes, whichever way decoding ends |
| DocsPage.DocsParser.Parse | src/ruhu/atlas_docs_parser.py:281-339 | One outcome is recorded per call made, unless decoding its reply raises; one fallback per None returned, and none otherwise |
| DocsPage.DocsParser.ReadReply | src/ruhu/atlas_docs_parser.py:308-339 | Which outcome, which reason and which result or exception a reply leads to |
| Generation.ReplyNotEmpty | src/ruhu/atlas_generator.py:317-328 | The branch for an empty reply is never taken |
| Generation.GenerationTold | src/ruhu/atlas_generator.py:315-392 | A second call is made exactly after a text that yields nothing; output, outcome label and number of posts follow from the texts of one or two calls |
| Generation.ParseOutput | src/ruhu/atlas_generator.py:297-313 | An output is what the found object decodes to, if the contract accepts it |
| Generation.GenerationBounded | src/ruhu/atlas_generator.py:315-366 | One generation posts at least once and at most twice as often as one call may, because of the single repair pass |
| Generation.Generator.GenerateWithAnthropic | src/ruhu/atlas_generator.py:315-392 | One outcome recorded, the posts and the sleep of one or two calls, and the output of the first or else of the repaired reply |
| Generation.Generator.Generate | src/ruhu/atlas_generator.py:209-239 | A fallback is recorded exactly when the proposal is not the model's, with the reason |
| ToolValues.TruncateKeeps | src/ruhu/code_execution.py:58-70 | The sandbox's coercion keeps a value if and only if nothing but strings lies below the fifth level |
| ToolValues.DepthLimit | src/ruhu/code_execution.py:58-70 | The level at which values become text |
| CompositeChain.TraverseLoop | src/ruhu/tools/executors/composite.py:139-146 | The loop with its early return is the path lookup that yields None once it leaves the objects |
| CompositeChain.TraverseWalks | src/ruhu/tools/executors/composite.py:139-146 | The lookup is a walk from object to named member, None from the first step that has none |
| CompositeChain.ResolveScalar | src/ruhu/tools/executors/composite.py:131-136 | A string argument resolves to the incoming argument, the path in the previous output, or itself |
| CompositeChain.ResolveStandsFor | src/ruhu/tools/executors/composite.py:131-136 | What each of the three forms of an argument stands for, with its prefix spelt out |
| CompositeChain.ResolveAll | src/ruhu/tools/executors/composite.py:116-128 | Every argument is resolved, by name |
| CompositeChain.Execute | src/ruhu/tools/executors/composite.py:43-103 | The loop performs the chain: every call is its step's tool with the arguments its expressions stand for, fed by the call before it, and the run ends for the reason it reports |
| CompositeChain.CompositeTold | src/ruhu/tools/executors/composite.py:43-103 | The same of the chain as a function: calls, status and output told call by call |
| CompositeChain.ChainExtends | src/ruhu/tools/executors/composite.py:57-103 | At most one call per step is made, and a successful run makes one for every step |
| CompositeChain.CallsFollowSteps | src/ruhu/tools/executors/composite.py:57-82 | The k-th call made is the k-th step's |
| CompositeChain.ChainStopsAtFailure | src/ruhu/tools/executors/composite.py:82-95 | Every call before the last succeeded, and a successful run returns the last output |
| CompositeCodegen.ArgExprToPython | scripts/prototype_composite_to_code.py:57-80 | The text of each form of an argument, spelt out (`vars.get(..)`, nested `(.. or {}).get(..)` around `prev_state`, or `repr`), which is the text of the expression whose meaning is modelled |
| CompositeCodegen.KwPairs | scripts/prototype_composite_to_code.py:100-102 | The `name=code` pairs in order with commas between them, which is the text of the translated arguments |
| CompositeCodegen.CompositeToCode | scripts/prototype_composite_to_code.py:83-110 | Generation fails at the first step without a ref and otherwise yields the compiled program's table and text, whose lines are spelt out: the frame, and for each step its comment, its call and a blank line |
| GeneratedText.TextReadsBack | scripts/prototype_composite_to_code.py:83-110 | A reader that knows only the literal templates reads the generated text back as the compiled program, for every quoting of literals it can end |
| GeneratedText.GeneratedCodeAgreesIff | scripts/prototype_composite_to_code.py:83-110 | So the code, read from its text and run, agrees with the composite if and only if there are steps and every step reached is safe |
| CodegenCorrectness.PathEvaluates | scripts/prototype_composite_to_code.py:68-79 | For paths of any length the chained `.get` calls look the path up None-safely, and raise exactly at a truthy scalar |
| CodegenCorrectness.ArgEvaluates | scripts/prototype_composite_to_code.py:57-80 | An argument means the same in both runs if and only if it is safe |
| CodegenCorrectness.ArgsEvaluate | scripts/prototype_composite_to_code.py:99-102 | So do all arguments of a call |
| CodegenCorrectness.UnsafeStepShows | scripts/prototype_composite_to_code.py:99-106 | A step that is not safe always shows: the two runs make different calls |
| CodegenCorrectness.RunsAgree | scripts/prototype_composite_to_code.py:129-181 | From any state the two runs agree on status, output and ordered calls if and only if every step reached is safe |
| CodegenCorrectness.CompilerCorrect | scripts/prototype_composite_to_code.py:83-110 | The compiler preserves a run's meaning if and only if there are steps and every step reached is safe |
| CodegenCorrectness.StatusMatches | scripts/prototype_composite_to_code.py:149-152 | Where the runs succeed together their statuses are the same if and only if no call made by the composite fails otherwise than with error |
| CodegenCorrectness.RoutesToLast | scripts/prototype_composite_to_code.py:97-98 | An identifier is routed to the last step whose ref is mangled to it |
| CodegenCorrectness.RoutedIffNoCollision | scripts/prototype_composite_to_code.py:53-54 | Every step reaches its own tool if and only if no two refs share an identifier |
| CodegenCorrectness.CollisionMisroutes | scripts/prototype_composite_to_code.py:133-134 | When two refs collide the earlier step's call goes to the later step's tool |
| CodegenStatic.CallsAlwaysAgreeIff | scripts/prototype_composite_to_code.py:83-110 | For every runtime the generated code makes the composite's calls if and only if a condition on the steps and the incoming arguments holds: refs routed to themselves, arguments the sandbox keeps, and no path of several parts after the first step |
| CodegenStatic.AlwaysAgreesIff | scripts/prototype_composite_to_code.py:129-181 | For all tools with shallow outputs calls, success and output agree if and only if there are steps and they meet that condition |
| CodegenStatic.StaticAgrees | scripts/prototype_composite_to_code.py:83-110 | Under the condition the runs agree whatever the tools do, and the final output is the same exactly when it is shallow |
| CodegenStatic.UnsafeParts | scripts/prototype_composite_to_code.py:57-80 | Without it a constant shallow tool output makes the calls differ |
| CodegenStatic.PlainStepsAgree | scripts/prototype_composite_to_code.py:83-110 | Collision-free steps with plain arguments meet the condition for all shallow incoming arguments |
| CodegenStatic.EmptyListDiffers | src/ruhu/tools/executors/composite.py:44-52 | An empty list is an error of the composite and a success of the code |
| CodegenStatic.ArgsKeyDiffers | scripts/prototype_composite_to_code.py:155-155 | The key `args` is shadowed: the calls differ for every runtime |
| CodegenStatic.DeepArgumentDiffers | src/ruhu/code_execution.py:60-61 | An argument nested deeper than five levels arrives as text: the calls differ for every runtime |
| CodegenStatic.ScalarPathDiffers | scripts/prototype_composite_to_code.py:68-79 | A path through a number: the composite succeeds and the code raises |
| CodegenStatic.CollisionDiffers | scripts/prototype_composite_to_code.py:53-54 | Two refs that collide: both first calls are made, to different tools |
| CodegenStatic.StatusDiffers | scripts/prototype_composite_to_code.py:172-181 | A failure of another kind than error loses its kind |
| AgentDocument.ValidateTransitions | src/ruhu/agent_document.py:93-148 | The loop reports the first violation, and none exactly when there is none; the error named is true of that transition |
| AgentDocument.RoutingAcceptedIff | src/ruhu/agent_document.py:93-106 | A step is accepted if and only if ids and outcome events are unique, one `otherwise` at most exists and every tool outcome is unambiguous and bound |
| AgentDocument.ValidateDocumentIff | src/ruhu/agent_document.py:282-322 | A document is accepted if and only if it is well formed, ids, start and references |
| AgentDocument.ErrorJustified | src/ruhu/agent_document.py:282-322 | The error a document is refused with is a fault the document has |
| AgentDocument.ConstructedIds | src/ruhu/agent_document.py:282-322 | Construction makes step and scenario ids distinct and every target known |
| AgentDocument.StepByIdKnown | src/ruhu/agent_document.py:270-274 | The scan succeeds on exactly the ids that occur, with a step of that id |
| AgentDocument.ScenarioByIdKnown | src/ruhu/agent_document.py:264-268 | The same for scenarios |
| AgentDocument.OwnerKnown | src/ruhu/agent_document.py:276-280 | A step that exists has an owning scenario of the document |
| Reachability.EnqueueUnvisited | src/ruhu/agent_document.py:764-766 | The queue gains exactly the targets not visited, duplicates allowed |
| Reachability.EnqueueRouted | src/ruhu/agent_document.py:767-772 | The queue gains exactly the entry steps, not visited, of the scenarios that the scenario's routes name, failing exactly when one of those scenarios is unknown |
| Reachability.ReachableStepIds | src/ruhu/agent_document.py:755-773 | The search ends, returns exactly the ids joined to the start by a path, and raises exactly when a reachable id cannot be followed; `GraphMoves.EdgeIff` says what a path follows |
| GraphMoves.EdgeIff | src/ruhu/agent_document.py:763-772 | On a constructed document one move leads from a step to another if and only if a transition of the step names it, or a route leaves the step's scenario for a scenario that starts there |
| GraphMoves.ReachableIff | src/ruhu/agent_document.py:755-773 | So an id is reachable if and only if finitely many such moves join it to the entry step of the start scenario |
| GraphMoves.ReachableOnConstructed | src/ruhu/agent_document.py:755-773 | The search on a constructed document returns exactly the ids so joined |
| Reachability.ClosedIsReachable | src/ruhu/agent_document.py:755-773 | A set closed under moves and made of reachable ids is the reachable set |
| Reachability.SuccessorsKnown | src/ruhu/agent_document.py:763-772 | On a constructed document every step can be followed and leads to steps |
| Reachability.ConstructedNeverStuck | src/ruhu/agent_document.py:755-773 | The search never raises on a document that the validators accepted |
| PythonDict.IndexRefinesScan | src/ruhu/agent_document.py:442-458 | With distinct keys a last-write index equals the first-match scan on every key |
| PythonDict.IndexVersusScan | src/ruhu/agent_document.py:264-274 | With a repeated key they agree exactly when its first and last items are equal |
| PythonDict.ValuesInOrder | src/ruhu/agent_document.py:521-525 | With distinct keys the values of the index stand in the order of the items |
| CompiledDocument.CompileScenarioSteps | src/ruhu/agent_document.py:490-514 | One scenario's loop compiles its steps in order and extends the index by them |
| CompiledDocument.IndexOwners | src/ruhu/agent_document.py:518-519 | The owner index gains the scenario's steps |
| CompiledDocument.Compile | src/ruhu/agent_document.py:480-528 | The loops build the indexes of the whole document |
| CompiledDocument.StepIndexRefines | src/ruhu/agent_document.py:448-452 | On a constructed document the compiled `step_by_id` succeeds on the same ids with the scan's step under its owner |
| CompiledDocument.OwnerIndexRefines | src/ruhu/agent_document.py:454-458 | The same for `scenario_for_step_id` |
| CompiledDocument.ScenarioIndexRefines | src/ruhu/agent_document.py:442-446 | The same for `scenario_by_id` |
| CompiledDocument.CompiledStepsInOrder | src/ruhu/agent_document.py:521-524 | The compiled steps are the document's, in document order |
| CompiledDocument.CompiledScenariosInOrder | src/ruhu/agent_document.py:489-523 | The compiled scenarios are the document's, in order, each with its own steps under its id |
| CompiledDocument.DuplicateStepIdsDiverge | src/ruhu/agent_document.py:513-514 | With a repeated step id the index keeps the last step while the scan finds the first, so they agree if and only if those are equal; such a document never passes construction |
| CompiledDocument.CapabilityFlagsAgree | src/ruhu/agent_document.py:461-477 | A step's capability flags do not depend on the form of the document it was looked up in |
| CompiledDocument.RuntimeEntryRefinesScan | src/ruhu/agent_document.py:722-752 | Runtime entries built from the raw and from the compiled document are equal, and read off the authored step |
| CompiledDocument.CollectsIffMissing | src/ruhu/agent_document.py:735-742 | A step collects details exactly when a required fact is missing |
| EntryMeaning.ToolRefsPicked | src/ruhu/agent_document.py:496-500 | The available tools are, in order, the refs of the bindings that are not blocked and name a tool |
| EntryMeaning.EntryDescribesStep | src/ruhu/agent_document.py:722-752 | The runtime entry for the step at any position of a constructed document, in either form, describes that step field by field and names its scenario |
| EntryMeaning.UnknownStepHasNoEntry | src/ruhu/agent_document.py:722-752 | There is no entry exactly for an id that no step has |
| PublishValidation.CheckTools | src/ruhu/agent_document.py:586-599 | A binding is reported exactly when its ref occurred before in the step; `PublishMeaning.ToolIssueIff` says it position by position |
| PublishValidation.CheckFacts | src/ruhu/agent_document.py:601-612 | One issue per required fact that the schema lacks |
| PublishValidation.CheckTransitions | src/ruhu/agent_document.py:614-638 | The loop-carried dictionary reports exactly the transition ids met before, in any step |
| PublishValidation.CheckStep | src/ruhu/agent_document.py:541-638 | All issues of one step, in order |
| PublishValidation.CheckSteps | src/ruhu/agent_document.py:539-638 | All issues of all steps, with the dictionary carried across steps |
| PublishValidation.CheckWorkflow | src/ruhu/agent_document.py:641-653 | One issue per fact of workflow scope |
| PublishValidation.CheckRoutes | src/ruhu/agent_document.py:655-686 | The route issues in sorted order |
| PublishValidation.CheckChannels | src/ruhu/agent_document.py:688-701 | A use is reported exactly when the latest earlier use of its channel is another scenario's, although the owner map is overwritten |
| PublishValidation.ValidateAgentDocument | src/ruhu/agent_document.py:531-719 | The report over the exact reachable set, or the KeyError of a search that gets stuck; `ReportMeaning.ReportedIff` says which issues that report holds |
| PublishMeaning.ToolIssueIff | src/ruhu/agent_document.py:586-599 | A step has a duplicate-binding issue about a ref if and only if two of its bindings have that ref |
| PublishMeaning.ToolRepeats | src/ruhu/agent_document.py:586-599 | Those issues number the bindings less the distinct refs |
| PublishMeaning.PlacedAt | src/ruhu/agent_document.py:539-541 | The validator meets the steps in document order |
| ReportMeaning.UseAt | src/ruhu/agent_document.py:689-691 | And the channels too |
| ReportMeaning.ReportedIff | src/ruhu/agent_document.py:531-719 | An issue, whatever its code, is in the report of any document if and only if the document deserves it, said position by position about steps, transitions, facts, bindings, routes and channels |
| ReportMeaning.UnreachableReportedIff | src/ruhu/agent_document.py:541-550 | On a constructed document a step is reported unreachable if and only if no finite sequence of transitions and routes joins it to the start |
| ReportMeaning.LatestOwnerAt | src/ruhu/agent_document.py:688-701 | The owner remembered for a channel is the scenario of its last use |
| ReportMeaning.CountsPositions | src/ruhu/agent_document.py:712-719 | The two counts of a report number its errors and its warnings |
| PublishReadiness.ChannelIssuesIff | src/ruhu/agent_document.py:688-701 | The overwritten owner map misses no conflict: issues exist exactly when two uses of a channel differ in scenario |
| PublishReadiness.ConflictReportedIff | src/ruhu/agent_document.py:688-701 | A conflict is reported if and only if two different scenarios list the same channel |
| PublishReadiness.ConstructedRoutesClean | src/ruhu/agent_document.py:655-686 | A constructed document has no route issues, in whatever order they are visited |
| PublishReadiness.ValidIffReady | src/ruhu/agent_document.py:714-719 | The report of a constructed document is valid if and only if the document is ready |
| PublishReadiness.NoRunGetsStuck | src/ruhu/agent_document.py:552-571 | After a valid report every finite run stays in the reachable set and can go on unless it stands on a completion or handoff, which has no way on |
| ReportMeaning.LeadsIff | src/ruhu/agent_document.py:552-571 | The moves of such a run are the transitions of the steps with the id it stands on |
| PublishReadiness.OneStepDocumentRuns | src/ruhu/agent_document.py:531-719 | A single completion step makes a document that is constructed, reports valid and runs |
| PublishTheorems.SeveritiesPartition | src/ruhu/agent_document.py:712-719 | Errors and warnings add up to all issues |
| PublishTheorems.DuplicateIdAccounting | src/ruhu/agent_document.py:614-627 | Duplicate-id issues equal the transitions less the distinct transition ids |
| ReportMeaning.DuplicateBindingAccounting | src/ruhu/agent_document.py:586-599 | Duplicate-binding issues number, over all steps, the bindings less the distinct refs of each step |
| ReportMeaning.MissingFactAccounting | src/ruhu/agent_document.py:573-612 | Missing-definition issues number the undefined facts of each step, and one more for each step with an action that has any |
| PublishTheorems.UnreachableAccounting | src/ruhu/agent_document.py:541-550 | Unreachable issues equal the steps less the reachable steps |
| PublishTheorems.ConstructionRulesOut | src/ruhu/agent_document.py:628-686 | Four codes are never reported on a document that passed construction |
| PublishTheorems.ConflictInReportIff | src/ruhu/agent_document.py:688-701 | The report holds a channel conflict if and only if two different scenarios list the same channel |
| StartScenario.SelectsLeastListing | src/ruhu/agent_document.py:789-793 | A channel selects the least scenario, by order and id, that lists it, otherwise the document's start |
| StartScenario.ValidReportSelectsTheOwner | src/ruhu/agent_document.py:789-793 | After a valid report the one scenario that lists the channel is selected |
| StartScenario.SelectionIgnoresStorageOrder | src/ruhu/agent_document.py:789-793 | The order in which scenarios are stored does not matter |
| StartScenario.RequestedScenarioSelected | src/ruhu/agent_document.py:782-788 | A requested scenario is used if and only if it exists and admits the channel; otherwise it is unknown, or refused for its channels, and the error says which |
| StartScenario.NothingRequested | src/ruhu/agent_document.py:789-793 | Without a scenario and a channel the document's start is used |
| PublishGate.BuildPublishReadiness | src/ruhu/agent_review.py:223-286 | Blockers are the errors and one entry per missing tool, sorted and without repeats; publishing is possible exactly without blockers |
| PublishGate.MissingRefsHas | src/ruhu/agent_review.py:230-238 | A tool is missing if and only if some step uses it unblocked and the runtime, listing any tools, does not list it |
| PublishGate.SeverityPicked | src/ruhu/agent_review.py:240-249 | Blockers and warnings are the issues of their severity, in the order of the report |
| PublishGate.CanPublishIff | src/ruhu/agent_review.py:275-302 | A constructed draft can be published if and only if it is ready, its tools are registered (or none are listed) and no evaluation blocks it |
| PublishGate.EmptyListingBlocksNothing | src/ruhu/agent_review.py:237-238 | A runtime that lists no tools blocks no draft for a missing tool |
| KeyedDiff.DiffItems | src/ruhu/agent_review.py:417-432 | The walk over the sorted union of keys lists the differences of the two indexes |
| KeyedDiff.DiffOrdered | src/ruhu/agent_review.py:421-431 | A key is listed at most once, in sorted order |
| KeyedDiff.DiffDescribes | src/ruhu/agent_review.py:417-432 | A key is listed if and only if the versions differ there, with what differs |
| KeyedDiff.DiffIff | src/ruhu/agent_review.py:417-432 | A change is in the diff if and only if it is due: gone, new, or shared and different, with what was before and after |
| KeyedDiff.IndexIs | src/ruhu/agent_review.py:418-420 | The index of a version holds, under every key, the last record that has it |
| KeyedDiff.DiffIsPatch | src/ruhu/agent_review.py:490-515 | Applying the diff to the `against` version yields the `source` version up to the compared form |
| KeyedDiff.DiffIsExactPatch | src/ruhu/agent_review.py:518-540 | It yields the very same version when records of equal form are equal |
| KeyedDiff.DiffEmptyIff | src/ruhu/agent_review.py:417-432 | A diff is empty exactly when nothing compared differs |
| KeyedDiff.DiffAntisymmetric | src/ruhu/agent_review.py:424-431 | Swapping the versions swaps added with removed and before with after |
| KeyedDiff.DiffBalances | src/ruhu/agent_review.py:190-192 | Added less removed is the growth in the number of records |
| VersionDiff.ChangedStepFields | src/ruhu/agent_review.py:466-487 | Each of the compared fields is listed exactly when the two steps differ in it, in order |
| VersionDiff.StepChanges | src/ruhu/agent_review.py:435-463 | The walk lists each step that differs with its three kinds of change |
| VersionDiff.StepChangesSay | src/ruhu/agent_review.py:435-463 | Each listed change says what became of its step; its fields, transition changes and binding changes are exactly the differences, and applied to the old step's parts they give the new one's |
| VersionDiff.PartsByKey | src/ruhu/agent_review.py:490-540 | Transitions are compared by id and bindings by ref |
| VersionDiff.StepReportedIff | src/ruhu/agent_review.py:448-462 | A shared step is reported if and only if a compared field, the transitions by id or the bindings by ref differ |
| VersionDiff.StepDiffIsKeyedDiff | src/ruhu/agent_review.py:435-463 | The step diff is an ordered, antisymmetric, balanced patch up to what review sees |
| VersionDiff.InvisibleEdits | src/ruhu/agent_document.py:74-80 | A change of the confidence threshold or the classifier's facts alone is never reported |
| VersionDiff.ThresholdIsInvisible | src/ruhu/agent_review.py:466-487 | Two versions that differ in a threshold have an empty diff |
| VersionDiff.TransitionsBalance | src/ruhu/agent_review.py:193-198 | The summary's transition counts balance over shared steps |
| VersionDiff.WholeVersionsBalanceIff | src/ruhu/agent_review.py:193-198 | Over whole versions they balance exactly when unshared steps hold equally many transitions on either side |
| LatencyStats.P95IsNearestRank | src/ruhu/agent_review.py:382-388 | The reported value is a latency that 95 percent do not exceed, and no smaller value will do |
| LatencyStats.StatsAre | src/ruhu/agent_review.py:379-390 | The count, the truncated mean and the maximum are those of the values in any order |
| EdgeOutcomes.StoredStep.Judge | scripts/migrate_to_edge_outcomes.py:110-150 | What becomes of a transition, read off its stored condition: dropped exactly for a fallback, refused exactly for an event that cannot be translated, translated with the hint, the caption or the made sentence as its description, its value moved to the new key, or kept as it is |
| EdgeOutcomes.StoredStep.Migrate | scripts/migrate_to_edge_outcomes.py:100-157 | The step after a run and the reported flag as the fates of its transitions dictate, and the half-rewritten step that a refused transition leaves |
| EdgeOutcomes.DescriptionIs | scripts/migrate_to_edge_outcomes.py:77-97 | The description is the stripped hint when that has eight characters, the stripped caption when there is no hint and it has eight, and the made sentence otherwise |
| EdgeOutcomes.FateTold | scripts/migrate_to_edge_outcomes.py:110-150 | Which of these happens to a transition and what it becomes, without the functions that compute it |
| EdgeOutcomes.StepTold | scripts/migrate_to_edge_outcomes.py:100-157 | A migrated step has no hints and the kept transitions in order, if a change is reported, and is otherwise as it was |
| EdgeOutcomes.MigratedIsModern | scripts/migrate_to_edge_outcomes.py:103-150 | After success no hints, no event condition and no legacy `value` remain |
| EdgeOutcomes.SecondRunDoesNothing | scripts/migrate_to_edge_outcomes.py:100-157 | A second run is accepted, reports no change and changes nothing |
| EdgeOutcomes.StepDiffersIff | scripts/migrate_to_edge_outcomes.py:100-157 | A run changes the stored step if and only if it reports a change or removes a null `event_hints` |
| EdgeOutcomes.FlagTellsIff | scripts/migrate_to_edge_outcomes.py:102-106 | The reported flag tells whether the step changed, except exactly for null hints on a step whose transitions are all modern |
| EdgeOutcomes.NullHintsGoUnreported | scripts/migrate_to_edge_outcomes.py:103-106 | A step with null hints and no transitions is changed without a report |
| EdgeOutcomes.SurvivorsInOrder | scripts/migrate_to_edge_outcomes.py:108-155 | The survivors are the other transitions in their order, changed in nothing but the condition |
| EdgeOutcomes.EventsComing | scripts/migrate_to_edge_outcomes.py:129-136 | The outcome events after a run are determined by the stored conditions, in order |
| EdgeOutcomes.OutcomesUniqueIff | scripts/migrate_to_edge_outcomes.py:129-136 | The migrated step meets the uniqueness rule for events if and only if those events are distinct |
| EdgeOutcomes.TranslatedEventAcceptedIff | src/ruhu/schemas.py:310-321 | The new schema accepts a translated event if and only if its name has 3 to 60 characters |
| EdgeOutcomes.ShortNameRefused | scripts/migrate_to_edge_outcomes.py:74-74 | A name of two characters is translated and then refused by the schema |
| EdgeOutcomes.MigrateDocument | scripts/migrate_to_edge_outcomes.py:160-169 | It succeeds exactly when every step is accepted, leaves every step as the fates of its transitions dictate and reports a change exactly when a step does; on failure the steps before the refused one are migrated, that one is half rewritten and the later ones are untouched |
| EdgeOutcomes.MigrateTwice | scripts/migrate_to_edge_outcomes.py:160-169 | A migrated document is accepted again, reports no change and stays as it is |
| EdgeOutcomes.DocumentUnwrittenIff | scripts/migrate_to_edge_outcomes.py:248-283 | As a row is stored only when a change is reported, exactly the documents whose only legacy remains are null hints keep them |
| EdgeOutcomes.ClassifierRenamed | scripts/migrate_to_edge_outcomes.py:172-184 | The old key is gone, an existing new key wins, nothing else moves, and a second run does nothing |
| FallbackPolicy.ReplaceBounded | alembic/versions/20260501_2000_0078_fallback_policy_bounded_to_permissive.py:114-135 | In a heap with shared objects exactly the objects entered are rewritten, in place, and a change is reported exactly when one held a bounded policy |
| FallbackPolicy.ReplaceListed | alembic/versions/20260501_2000_0078_fallback_policy_bounded_to_permissive.py:130-134 | The inner loop extends the walk by the objects directly in the list |
| FallbackPolicy.EnteredIff | alembic/versions/20260501_2000_0078_fallback_policy_bounded_to_permissive.py:122-134 | An object is entered through another if and only if it is the value of an entry or stands directly in an entry's list |
| FallbackPolicy.RewrittenIs | alembic/versions/20260501_2000_0078_fallback_policy_bounded_to_permissive.py:122-127 | Only a policy entry of "bounded" changes, to "permissive" |
| FallbackPolicy.WalkStep | alembic/versions/20260501_2000_0078_fallback_policy_bounded_to_permissive.py:122-135 | Entering an object that shares parts with what was already rewritten rewrites just the rest |
| FallbackPolicy.NothingBoundedLeft | alembic/versions/20260501_2000_0078_fallback_policy_bounded_to_permissive.py:115-118 | Afterwards no object that is entered holds a bounded policy |
| FallbackPolicy.ReportsEveryChange | alembic/versions/20260501_2000_0078_fallback_policy_bounded_to_permissive.py:117-117 | The walk returns True if and only if the heap is not what it was |
| FallbackPolicy.SecondWalkDoesNothing | alembic/versions/20260501_2000_0078_fallback_policy_bounded_to_permissive.py:114-135 | A second walk changes nothing and returns False |
| FallbackPolicy.ReachedIsContained | alembic/versions/20260501_2000_0078_fallback_policy_bounded_to_permissive.py:122-135 | Every object entered is part of the JSON text walked |
| FallbackPolicy.ClearsAllIff | alembic/versions/20260501_2000_0078_fallback_policy_bounded_to_permissive.py:115-118 | No contained object, through any number of lists, holds a bounded policy afterwards if and only if every contained object that held one is entered |
| FallbackPolicy.FlatIsCleared | alembic/versions/20260501_2000_0078_fallback_policy_bounded_to_permissive.py:128-134 | Where no list stands in a list the walk clears everything |
| FallbackPolicy.NestedListSkipped | alembic/versions/20260501_2000_0078_fallback_policy_bounded_to_permissive.py:130-134 | An object in a list inside a list is contained and bounded, and the walk leaves the whole heap as it was |
| FallbackPolicy.RewriteAgentSettings | alembic/versions/20260501_2000_0078_fallback_policy_bounded_to_permissive.py:79-96 | A row is written, once, if and only if its settings changed |
| Backfill.CursorSplits | scripts/backfill_encrypt_credentials.py:175-178 | Resuming at the key of a row found leaves exactly the rows found after it |
| Backfill.FetchTold | scripts/backfill_encrypt_credentials.py:158-183 | A query returns the first eligible rows beyond the cursor in key order, up to its limit |
| Backfill.RowTold | scripts/backfill_encrypt_credentials.py:185-222 | Which rows are eligible, which are convertible, and what encryption makes of each column |
| Backfill.NextConverted | scripts/backfill_encrypt_credentials.py:185-235 | The UPDATE of one row extends the converted key range up to it and touches no other row |
| Backfill.Connections.ProcessBatch | scripts/backfill_encrypt_credentials.py:138-240 | The rows between the two cursors are converted, the others untouched, one UPDATE per convertible row; a dry run returns the same count and cursor and writes nothing |
| Backfill.Connections.Run | scripts/backfill_encrypt_credentials.py:256-294 | The scan ends; its total is the same dry or live; exactly the rows up to the final cursor are converted |
| Backfill.ScanBatch | scripts/backfill_encrypt_credentials.py:267-283 | The batches of a scan, live writes included, compose to one pass over the rows eligible at the start |
| BackfillTheorems.CursorIncreases | scripts/backfill_encrypt_credentials.py:148-150 | A batch that is not empty moves the cursor strictly, to the largest key seen |
| BackfillTheorems.ChangedRows | scripts/backfill_encrypt_credentials.py:207-235 | A row changes if and only if it had something to convert within the range scanned |
| BackfillTheorems.UpdatedOnce | scripts/backfill_encrypt_credentials.py:230-235 | A row gets at most one UPDATE, and gets it exactly when it had something to convert |
| BackfillTheorems.CapOvershoot | scripts/backfill_encrypt_credentials.py:268-270 | The cap on rows is exceeded by less than one batch |
| BackfillTheorems.StopsFor | scripts/backfill_encrypt_credentials.py:267-283 | A scan stops only with the cap reached or after a batch with nothing to convert |
| BackfillTheorems.CapOrEverything | scripts/backfill_encrypt_credentials.py:267-283 | Over a table without empty values a capped scan writes up to the cap at least, or everything |
| BackfillTheorems.CompleteIff | scripts/backfill_encrypt_credentials.py:279-281 | An uncapped live run leaves every row converted if and only if no batch of empty values precedes a row with something to convert |
| BackfillTheorems.EmptyValueStarves | scripts/backfill_encrypt_credentials.py:207-210 | One row with an empty value before one with something to convert stops a scan of one row a batch |
| BackfillTheorems.SolidNeverStarved | scripts/backfill_encrypt_credentials.py:207-210 | Without empty legacy values no run stops early |
| BackfillTheorems.ResumeCompletes | scripts/backfill_encrypt_credentials.py:152-155 | Without them a run after any interrupted one finishes the job |
| BackfillTheorems.ResumeStarves | scripts/backfill_encrypt_credentials.py:163-174 | A half-empty row stays eligible after conversion, so a resumed run can stop at once although an uninterrupted one would finish |
| PlanRunner.RunToolPlan | src/ruhu/atlas_adk_runner.py:95-132 | Every call made is allowed and named by a listed object, is made before cancellation and in time, and follows calls that returned unblocked; the outcome, its results and its blocker are the ones that the first obstacle dictates; a completed run made the whole plan |
| PlanRunner.AvailableIff | src/ruhu/atlas_adk_runner.py:129-132 | A tool is available if and only if it is allowed and some listed object bears its name |
| PlanRunner.AccountUnique | src/ruhu/atlas_adk_runner.py:95-127 | That account leaves one outcome and one sequence of calls to each plan and world |
| PlanRunner.OnlyLastBlocked | src/ruhu/atlas_adk_runner.py:120-126 | Only the last result can be blocked, and it is exactly when the status says so |
| PlanRunner.CompletedIff | src/ruhu/atlas_adk_runner.py:106-127 | The status is completed if and only if every call of the plan passes, and then the whole plan ran |
| PlanRunner.StopIgnoresTheRest | src/ruhu/atlas_adk_runner.py:106-127 | A run that stops short ends the same way however the plan goes on |

## Left out

- CompositeCodegen.CompositeToCode: the generated text is read by its templates, not by Python's grammar; reading a literal back is an oracle, and argument names and mangled refs are taken as identifiers (`src/ruhu/tools/specs.py:14`).
- CompositeChain.Execute: error texts, metadata and the caller that is passed on.
- CodegenCorrectness.CompilerCorrect: time limits and the payload limit of the sandbox, and what the sandbox refuses to compile.
- PublishValidation.ValidateAgentDocument: the messages of issues.
- PublishGate.BuildPublishReadiness: the version diff attached to the result, modelled in `VersionDiff`.
- VersionDiff.StepChanges: content that the review only compares is kept as its JSON text; the order in which sets are dumped is not modelled.
- LatencyStats.P95IsNearestRank: the rank is the exact ceiling of 95n/100; the floating-point product and mean are not modelled.
- EdgeOutcomes.StoredStep.Migrate: conditions and hints whose entries are not of the stored shape (a condition that is no object, hints that are no texts).
- FallbackPolicy.ReplaceBounded: the interpreter's recursion limit, which an object nested about a thousand levels deep exceeds.
- FallbackPolicy.RewriteAgentSettings: settings stored as text are decoded before the model starts, and the twin for trace rows (lines 57-76) is the same walk at one fixed path.
- Backfill.Connections.Run: concurrent writers, commits that fail and the exit status 2 of an exception.
- ModelCalls.Client.CallForDocs: request payloads, headers, durations, and logging; seconds are real numbers.
- DocsPage.NormalizeExtraction: strings are sequences of Unicode characters without lone surrogates, the case mapping is an oracle, and `str` of a decoded value is taken not to raise.
- StartScenario.SelectsLeastListing: the selector is a function of the document; the early return of its loop is a recursion.
- `_metadata_changes`, the audit trail and the operational metrics of agent review: one comparison, one sort and counters.
- The clean-up of HTML, the prompts, and the environment readers: text and configuration.
- The stores, the HTTP layer, the kernel's turn processing and the code sandbox beyond its coercion of values.
- The SQL of the other migrations, and the database drivers behind the two scripts.

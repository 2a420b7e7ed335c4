# The SIEM backend, in Dafny

A model of the parts of the backend where a mistake is silent: the rule
compiler that must mean what the streaming evaluator means, the correlation
engine that must find an attack chain whatever order its events arrive in, the
playbook engine that must not act without a second person, the alert store that
must not lose count, the ingestion funnel that must not lose events, the CEF
parser that must give back what a device wrote, and the risk formula.

`dafny verify dfyconfig.toml` checks the whole project.

## How it is organised

| files | part of the system |
|---|---|
| `Text`, `Wildcard` | shared text functions; wildcard patterns and their escaping |
| `Documents`, `Conditions`, `Query`, `ConditionMeaning` | documents and paths, the streaming evaluator, the query compiler and the event store's reading of a query; what each operator asks, letter by letter and number by number |
| `CompilerCorrect`, `CompilerLimits`, `CompilerAccepted`, `CompilerBoundary` | both evaluation paths mean the same; where they part; which compiled queries the store runs; the well-typed conditions are exactly those that agree |
| `Windowed` | paged aggregation against a naive count |
| `Correlation`, `CorrelationGreedy`, `CorrelationWindow`, `CorrelationSelection` | completion of a rule; optimality of the greedy search; when one evaluation completes; what it selects |
| `CorrelationRuns`, `CorrelationArrival` | whole runs over the state store; how much arrival order decides |
| `Playbooks`, `PlaybookRuns`, `PlaybookOutcome`, `PlaybookService` | runs and approvals as a state machine; its invariants over every run; where each call must end; the code that updates rows in place |
| `Lifecycle`, `Alerts`, `DisplayIds` | transition tables and histories; deduplication; display numbers under concurrency |
| `Ingestion` | rate limit, idempotency claims, dead-lettering |
| `Cef`, `CefRoundTrip` | the parser; printing and parsing are inverse |
| `Risk` | the score |

Code that loops or updates rows is a method or a class proved equal to a
function on values; the theorems are about that function, so they hold of the
code. What the outside world answers (does a step succeed, does the bus take a
message, what time is it, how does text read as a number, is an address in a
network) is a parameter, and the theorems are for all of its answers. The one
assumption made of them is `EnvOk`, in the theorems about the rule compiler: the
words "true" and "false" do not read as numbers.

## Where the code does less than its comments say

* The compiler and the evaluator are said to agree, and on well-typed rules they
  do (`CompilerPreservesMeaning`), provided a negative operator meets at most one
  value: on a field with values on both sides of its test the evaluator accepts
  and the store does not select (`NegativeAgreesExactly`,
  `AgreesExactlyOnOneText`). Among the modelled conditions the store runs on a
  declared field, the well-typed ones are exactly those that never differ
  (`WellTypedExactly`). The others are of three kinds, and each differs on some
  document: equality on a keyword field with an operand that reads as a number
  (`EqualityAgreesExactly`); an empty list under `in`, `not_in` or `cidr`
  (`EmptyListDisagrees`, `EmptyNotInAgreesExactly`); and `cidr` on a keyword
  field, which compares texts there (`CidrAgreesExactly`).
* On a field the index does not declare, which the loader does not check for
  detection rules, a compiled test selects nothing (`UndeclaredAgreesExactly`,
  `ExistsAgreesExactly`, `TextAgreesExactly`).
* Both readings of a path coincide exactly on documents without objects, or lists
  inside lists, where the path ends or passes (`ResolvedIsIndexedExactly`).
* A rule that loads and compiles can still be refused by the event store: a text
  operator on a number, boolean or address field is (`TextOperatorRefused`). A
  compiled tree is run exactly when each operator and operand can be asked of its
  field's type (`TreeAcceptedExactly`). The option the code does guard, case
  folding on fields that are not text, is never set wrongly (`OptionsAlwaysFit`).
* The greedy search starts its cursor at -1, so hits before that instant are
  never seen (`EarlierHitsAreIgnored`, `IgnoredChain`). That costs no rule a
  chain if and only if no hit of the last window lies there
  (`CursorCostsNothingExactly`).
* The correlation window is anchored on the newest hit, so the same inputs can
  fire in one order and not in another (`OrderMattersBeyondOneWindow`). Some
  order fires exactly when a chain fits in some window, every order exactly when
  all hits evaluated at once complete the rule, so arrival order decides nothing
  if and only if a chain that fits anywhere implies one in the last window
  (`OrderIrrelevantExactly`).
* The clock is read twice when an alert is folded, once for the lookup and once
  for the stamp, so consecutive stamps of one alert can be more than the
  deduplication window apart: by as much as the stamp trails the lookup
  (`StampsAreClose`), and that much is reached (`StampsReachTheBound`).
* "At most twice the quota across a window boundary" is exact: never more
  (`AtMostTwice`), and reached for every quota (`TwiceIsReached`).
* More evidence can lower a risk score once the floor of the denominator is
  passed: from 100 to 87 with a user risk of zero (`ScoreCanFall`).
  `AddingExactly` says when the mean falls and `ScoreFallsExactly` when the
  rounded score does.

## Model

| member | source | states |
|---|---|---|
| `Wildcard.EscapedIsLiteral` | backend/app/detection/query.py:92-96 | an escaped text, used as a pattern, accepts exactly the subjects that read the same under the fold, whatever stars, question marks and backslashes it holds |
| `Wildcard.ContainsPattern` | backend/app/detection/query.py:126-133 | the pattern star, escaped text, star accepts a subject exactly when the text occurs in it |
| `Wildcard.SuffixPattern` | backend/app/detection/query.py:142-149 | the pattern star, escaped text accepts a subject exactly when it ends with the text |
| `Wildcard.EscapeCons` | backend/app/hunting/query.py:142-146 | the three sequential replacements act as one escape per character |
| `Wildcard.Metacharacters` | backend/app/detection/query.py:92-96 | unescaped, a question mark is any one character, a star anything, and another character itself |
| `Documents.ResolvePath` | backend/app/detection/conditions.py:70-104 | the loop over path segments, with fan-out and flattening, computes the recursive resolution |
| `Documents.ResolvedIsIndexedExactly` | backend/app/detection/conditions.py:70-104 | the non-null values the evaluator reaches are the values the event store indexes under the path, in order, if and only if the path ends in scalars, nulls or one list of them and passes through no list inside a list that leads to indexed values |
| `Documents.NestedListIsMissed` | backend/app/detection/conditions.py:70-104 | a list directly inside a list is indexed and not reached |
| `Query.CompilesExactlyWhenSupported` | backend/app/detection/query.py:191-225 | compilation succeeds exactly on the trees in which no unsupported operator is listed |
| `ConditionMeaning.EvaluatorReadsTexts` | backend/app/detection/conditions.py:131-152 | on texts that do not both read as numbers, equality, containment, prefix, suffix and lists compare letter by letter, up to case or exactly; the evaluator accepts if some value passes, or under a negative operator if some value does not |
| `ConditionMeaning.StoreReadsTexts` | backend/app/detection/query.py:105-188 | the compiled query makes the same comparison; it selects if some value passes, or under a negative operator if there is a value and none passes |
| `ConditionMeaning.RangesReadNumbers` | backend/app/detection/conditions.py:155-169 | a range compares the numbers that values read as, in the evaluator and in the compiled query |
| `ConditionMeaning.EqualityReadsNumbersAndWords` | backend/app/detection/conditions.py:106-143 | values that both read as numbers are equal as numbers; booleans print as "true" and "false" |
| `ConditionMeaning.ExistsReadsPresence` | backend/app/detection/conditions.py:255-260 | `exists` asks whether anything but null is there |
| `ConditionMeaning.CidrReadsNetworks` | backend/app/detection/conditions.py:172-191 | `cidr` asks whether some address of the field is in some of the networks |
| `ConditionMeaning.MatchesReadsPatterns` | backend/app/detection/conditions.py:236-237 | `matches` asks the regular-expression library about each text |
| `ConditionMeaning.GroupsRead` | backend/app/detection/conditions.py:265-277 | `all` needs every node, `any` one of them, `not` the opposite |
| `CompilerCorrect.PositiveAgrees` | backend/app/detection/query.py:105-171 | for every operator that is not negative, and any number of values, the compiled clause selects exactly what the evaluator accepts |
| `CompilerCorrect.NegativeAgreesExactly` | backend/app/detection/query.py:174-188 | for a negative operator the two agree if and only if the field does not hold values on both sides of the test; when they part, only the evaluator accepts |
| `CompilerCorrect.TreeAgrees` | backend/app/detection/query.py:191-207 | whatever the fields and types, a tree whose conditions each get the same verdict on both paths gets the same verdict as a whole, under any nesting of all, any and not |
| `CompilerCorrect.CompilerPreservesMeaning` | backend/app/detection/query.py:8-15 | for every well-typed tree and fitting document, with absent fields and any nesting, the compiled query selects the document exactly when the evaluator accepts it, provided negated fields hold at most one value |
| `CompilerCorrect.NeverOverMatches` | backend/app/detection/conditions.py:252-277 | on trees without a `not` group, over multi-valued fields, whatever the query selects the evaluator accepts |
| `CompilerAccepted.AcceptedExactly` | backend/app/detection/query.py:105-188 | the store runs a compiled condition if and only if its operator and operand can be asked of the field's type |
| `CompilerAccepted.TreeAcceptedExactly` | backend/app/detection/query.py:191-225 | every tree that compiles is run if and only if every condition in it can be asked of its field |
| `CompilerAccepted.TextOperatorRefused` | backend/app/hunting/query.py:149-160 | a text operator on a declared field that is not text passes the loader's check, compiles, and is refused by the store |
| `CompilerAccepted.OptionsAlwaysFit` | backend/app/detection/query.py:69-77 | for every tree that compiles, case-insensitive matching is never asked of a declared field that is not text |
| `CompilerLimits.AgreesExactlyOnOneText` | backend/app/detection/conditions.py:252-262 | on a keyword field of a document, all well-typed conditions mean the same on both paths if and only if the values all read the same |
| `CompilerLimits.EqualityAgreesExactly` | backend/app/detection/conditions.py:131-143 | `equals`, `in` and their negations, with text, boolean or number operands, mean the same on every document (single-valued for the negations) if and only if the field is declared and no operand reads as a number |
| `CompilerLimits.TextAgreesExactly` | backend/app/detection/conditions.py:226-235 | the text operators mean the same on every document if and only if the field is declared, but for `not_contains` with an empty text, which nothing satisfies |
| `CompilerLimits.ExistsAgreesExactly` | backend/app/detection/conditions.py:255-260 | `exists` means the same on every document if and only if the field is declared |
| `CompilerLimits.UndeclaredAgreesExactly` | backend/app/services/index_management.py:46-144 | a test of an undeclared field selects nothing, so the paths agree exactly on the documents the evaluator refuses |
| `CompilerLimits.PaddedNumberDisagrees` | backend/app/detection/conditions.py:118-137 | a text longer than every operand that equals one as a number separates the paths |
| `CompilerLimits.PaddedNumber` | backend/app/detection/conditions.py:118-128 | such a text exists for every operand that reads as a number: the same text followed by spaces |
| `CompilerLimits.EmptyListDisagrees` | backend/app/detection/query.py:113-162 | an empty `in` or `cidr` list compiles to a query without clauses, which the store runs and which selects every document, and is accepted on none |
| `CompilerLimits.EmptyNotInAgreesExactly` | backend/app/detection/query.py:174-188 | an empty `not_in` list agrees exactly on documents without the field |
| `CompilerLimits.LongAddressDisagrees` | backend/app/detection/conditions.py:172-191 | an address inside one of the networks, written longer than any of them, is accepted on a keyword field and not selected |
| `CompilerLimits.CidrAgreesExactly` | backend/app/detection/query.py:152-162 | `cidr` with networks written as texts, on a keyword or address field, means the same on every document the store can hold if and only if the field is an address field and the list is not empty |
| `CompilerBoundary.EveryConditionIsCovered` | backend/app/detection/schema.py:79-105 | a modelled condition the store runs on a declared field is well typed, or has an empty list, or a number operand on a keyword field, or is `cidr` on a keyword field |
| `CompilerBoundary.WellTypedExactly` | backend/app/detection/query.py:8-15 | among those conditions both paths agree on all documents the store can hold (single-valued for negations) if and only if the condition is well typed |
| `Windowed.SearchedIsCounted` | backend/app/detection/windowed.py:125-150 | the query built from tenant, time range, conditions and active exceptions selects an event exactly when it is the tenant's, lies in the window, the evaluator accepts it, and no active exception does |
| `Windowed.SearchedExactly` | backend/app/detection/engine.py:138-150 | in instants: exceptions without expiry, or whose expiry lies ahead, exclude; those that have passed or cannot be read never do |
| `Windowed.NaiveCountMeans` | backend/app/detection/windowed.py:178-226 | the naive count is of the events accepted and belonging to the entity, each as often as stored, or of their different keys |
| `Windowed.BelongingMeans` | backend/app/detection/windowed.py:187-190 | an event belongs to the entity of a text, or of a number, exactly when one of its values in the grouping field reads so |
| `Windowed.Collect` | backend/app/detection/windowed.py:230-269 | buckets are examined once each, in order; the loop ends at the last bucket or at the cap, and never examines more than cap + page size - 1 |
| `Windowed.WindowedRefinesNaive` | backend/app/detection/windowed.py:178-294 | an entity is reported, with its count, exactly when the naive count by the streaming evaluator reaches the threshold and the suppression claim is granted |
| `Windowed.Run` | backend/app/detection/windowed.py:90-123 | nothing for a disabled rule; otherwise the naive verdict on every entity, as long as there are no more entities than the cap |
| `Correlation.EffectiveTime` | backend/app/correlation/engine.py:138-159 | the time used is within the tolerance of the ingestion time, and the event's claim is used exactly when it is within the tolerance itself |
| `Correlation.OrderedCompletion` | backend/app/correlation/engine.py:289-310 | the loop over stages computes the greedy selection |
| `Correlation.UnorderedCompletion` | backend/app/correlation/engine.py:313-322 | the loop takes the first hits of every stage, or nothing |
| `Correlation.Evaluate` | backend/app/correlation/engine.py:430-461 | filtering to the window, sorting, grouping and completing compute the specified selection |
| `CorrelationGreedy.SortSorts` | backend/app/correlation/engine.py:444-448 | sorting gives a sorted permutation |
| `CorrelationGreedy.SortIsStable` | backend/app/correlation/engine.py:444-448 | hits at the same instant stay in the order they were held in |
| `CorrelationSelection.GreedyIsChain` | backend/app/correlation/engine.py:289-310 | the groups selected have the asked number of held hits, of their own stage, at or after the cursor, no group after a later one, and no hit twice |
| `CorrelationGreedy.GreedyExact` | backend/app/correlation/engine.py:292-310 | the search succeeds if and only if some choice of enough hits per stage respects the stage order |
| `CorrelationGreedy.GreedyEarliest` | backend/app/correlation/engine.py:292-298 | the selection finishes no later than any valid choice |
| `CorrelationGreedy.GreedySameTimes` | backend/app/correlation/engine.py:289-310 | two lists of hits with the same counts per stage and time lead to the same stages and times selected |
| `CorrelationWindow.OrderedExact` | backend/app/correlation/engine.py:430-461 | an ordered rule completes if and only if the hits of the last window hold a chain, and nothing selected is later than the finish of any such chain |
| `CorrelationWindow.UnorderedExact` | backend/app/correlation/engine.py:313-322 | an unordered rule completes if and only if every stage has enough hits in the window |
| `CorrelationSelection.UnorderedIsSelection` | backend/app/correlation/engine.py:313-322 | an unordered selection has the asked number of hits of each stage, and no hit twice |
| `CorrelationSelection.GreedyTakesEarliest` | backend/app/correlation/engine.py:289-310 | every group takes the earliest hits of its stage at or after the latest hit of the group before |
| `CorrelationSelection.SelectionIsChain` | backend/app/correlation/engine.py:430-477 | a completed rule has selected, for each stage in rule order, exactly the asked number of held hits of that stage from one window, no hit twice, in stage order if the rule is ordered; and at every stage any hit left out is at or after every hit taken |
| `CorrelationSelection.CapBoundsRules` | backend/app/correlation/state.py:90-98 | a rule asking for more hits than the store keeps never completes |
| `CorrelationWindow.EarlierHitsAreIgnored` | backend/app/correlation/engine.py:299-306 | hits before the initial cursor never complete an ordered rule |
| `CorrelationWindow.IgnoredChain` | backend/app/correlation/engine.py:299-306 | a chain at times -5 and -4 that is not found |
| `CorrelationWindow.CursorCostsNothingExactly` | backend/app/correlation/engine.py:299-306 | for given hits and window length, every ordered rule completes exactly when the window holds a chain, if and only if no hit of the window lies before the initial cursor |
| `CorrelationWindow.MissedChain` | backend/app/correlation/engine.py:299-306 | otherwise the rule asking for all hits of such a hit's stage has a chain and is not completed |
| `CorrelationRuns.StateStore.Append` | backend/app/correlation/state.py:90-98 | the key's list becomes the last `max_hits` of everything ever appended to it, and other keys are untouched |
| `CorrelationRuns.AppendScript` | backend/app/correlation/state.py:107-118 | the Lua script's push and trim give the same list as the in-memory store, what it reports as trimmed plus what it holds is what there was plus one, and from a list within the cap it trims at most one |
| `CorrelationRuns.AppendAllKeepsLast` | backend/app/correlation/state.py:90-118 | after any sequence of appends the store holds exactly the last `max_hits`, in order |
| `CorrelationRuns.AppendScripts` | backend/app/correlation/state.py:107-118 | over any sequence of appends the script holds what the in-memory store holds, and what was appended is what is held and what it reported as trimmed |
| `CorrelationRuns.ProcessRule` | backend/app/correlation/engine.py:386-428 | one input appends one hit per matched stage and evaluates on what is then held |
| `CorrelationRuns.HitsMean` | backend/app/correlation/engine.py:386-428 | a hit stands for an input, with its time and event, and a stage it satisfies |
| `CorrelationRuns.HeldIsLast` | backend/app/correlation/engine.py:386-428 | after any run the store holds the last `max_hits` of all hits of the inputs |
| `CorrelationRuns.FiresExactly` | backend/app/correlation/engine.py:386-461 | within one window and without trimming, a run fires at least once if and only if its hits hold a chain |
| `CorrelationRuns.ArrivalOrderIrrelevant` | backend/app/correlation/engine.py:386-461 | any two arrival orders of the same inputs both fire or both do not, and the last evaluation selects the same stages and times |
| `CorrelationRuns.SelectionIgnoresOrder` | backend/app/correlation/engine.py:430-461 | for any hits, in one window or not, evaluation selects the same stages and times on every permutation |
| `CorrelationRuns.OrderMattersBeyondOneWindow` | backend/app/correlation/engine.py:444-448 | the same three inputs fire in one order and never in another |
| `CorrelationArrival.EvaluatesExactly` | backend/app/correlation/engine.py:430-461 | an evaluation completes, ordered or not, if and only if the held hits hold a chain within one window of the newest |
| `CorrelationArrival.SomeOrderFiresExactly` | backend/app/correlation/engine.py:386-461 | without trimming, some arrival order fires if and only if the hits hold a chain within one window of its own end |
| `CorrelationArrival.EveryOrderFiresExactly` | backend/app/correlation/engine.py:386-461 | without trimming, every arrival order fires if and only if all hits evaluated at once complete the rule |
| `CorrelationArrival.OrderIrrelevantExactly` | backend/app/correlation/engine.py:386-461 | all arrival orders agree if and only if a chain that fits in some window implies a chain in the window of the newest hit |
| `CorrelationArrival.MoreThanKeptNeverFires` | backend/app/correlation/state.py:36-36 | a rule that asks for more than 500 hits never fires on a store with the default cap |
| `PlaybookService.Service.CreatePendingApproval` | backend/app/playbooks/engine.py:59-90 | a pending row for the step, and the run awaits approval |
| `PlaybookService.Service.RunPlaybook` | backend/app/playbooks/engine.py:106-172 | the loop over steps, with its gate, its halts and its failures, computes the engine's transition |
| `PlaybookService.PreviewAll` | backend/app/playbooks/engine.py:106-122 | a dry run previews every step in order and raises on the first with nothing to act on |
| `PlaybookService.Service.StartRun` | backend/app/services/playbooks.py:153-193 | the new run and its outcome are those of the state machine, and the invariant is kept |
| `PlaybookService.Service.CheckDecision` | backend/app/services/playbooks.py:233-271 | a decision is allowed if and only if the run the row belongs to is the tenant's, stands at the row's step awaiting approval, and was triggered by somebody else; which refusal is given otherwise |
| `PlaybookRuns.RefusalMeans` | backend/app/services/playbooks.py:260-271 | the tests on the approval row are equivalent to that question about the run |
| `PlaybookService.Service.ApproveAction` | backend/app/services/playbooks.py:247-290 | approval, then resumption; a refusal changes nothing |
| `PlaybookService.Service.RejectAction` | backend/app/services/playbooks.py:293-330 | rejection ends the run; a refusal changes nothing |
| `PlaybookRuns.RunFromKeeps` | backend/app/playbooks/engine.py:92-172 | whatever the world answers, one call of the engine keeps the invariant, leaves its run at rest and touches no other run |
| `PlaybookOutcome.EngineLands` | backend/app/playbooks/engine.py:106-172 | a call of the engine carries out the steps up to the first one that is destructive or cannot be carried out, and there the run is completed, waits with one new pending row, or has failed, as the world's answers decide |
| `PlaybookOutcome.StartLands` | backend/app/services/playbooks.py:153-193 | a started real run lands so from its first step |
| `PlaybookOutcome.DryRunPreviews` | backend/app/playbooks/engine.py:106-122 | a dry run previews every step, or raises and leaves nothing |
| `PlaybookOutcome.ApprovalLands` | backend/app/services/playbooks.py:247-290 | an approved step is done, its row executed, and the run lands from the next step; or the run fails there with the row approved |
| `PlaybookOutcome.RejectionEnds` | backend/app/services/playbooks.py:293-330 | a rejection ends the run and refuses the row; a refused decision of either kind changes nothing |
| `PlaybookOutcome.GateExactly` | backend/app/playbooks/actions.py:84-133 | the gate opens exactly for an approved row of this tenant, run, step and action; the action's own check asks for tenant, action and status |
| `PlaybookRuns.RowMeansGrant` | backend/app/playbooks/actions.py:84-98 | at the step a run stands at, the gate opens exactly when there is an approval row |
| `PlaybookRuns.ApplyKeeps` | backend/app/services/playbooks.py:153-330 | every start, approval and rejection keeps the invariant |
| `PlaybookRuns.TerminalForever` | backend/app/services/playbooks.py:247-330 | completed, failed and rejected runs, and their rows, are never changed again |
| `PlaybookRuns.AwaitingExactlyWhenPending` | backend/app/playbooks/engine.py:106-172 | in every reachable state a run awaits approval if and only if it has a pending row; then exactly one, at its current step |
| `PlaybookRuns.ResultsAreTheSteps` | backend/app/playbooks/engine.py:106-172 | results list the steps passed, once each and in order, plus one error entry in a failed run; the effects are exactly those steps; a dry run has previews and no effects |
| `PlaybookRuns.DestructiveStepsWereApproved` | backend/app/playbooks/actions.py:84-133 | a destructive step that was carried out has exactly one approval row, executed, decided by someone other than the trigger |
| `PlaybookRuns.StepsRunOnce` | backend/app/playbooks/engine.py:124-172 | no step of any run is carried out twice |
| `PlaybookRuns.ApprovalsMakeProgress` | backend/app/services/playbooks.py:247-290 | each approval moves the run past its step or ends it |
| `PlaybookRuns.ApprovalsAreBounded` | backend/app/playbooks/engine.py:112-152 | a run has at most as many approval rows as destructive steps; a dry run has none |
| `DisplayIds.AlwaysGapless` | backend/app/services/alerts.py:114-144 | under every interleaving of insert-if-missing, lock, increment, commit and abort, the committed numbers of each tenant and year are exactly 1 to the counter |
| `DisplayIds.HandedOutIsTheRange` | backend/app/services/alerts.py:143-144 | the numbers a transaction's increments handed out are exactly those from the committed value to its own |
| `DisplayIds.InFlightNumbersAreFresh` | backend/app/services/alerts.py:129-144 | a number a transaction is about to commit is on no committed alert, and no other transaction holds that counter |
| `DisplayIds.CommitKeeps` | backend/app/services/alerts.py:129-144 | committing a transaction keeps the numbers gapless |
| `DisplayIds.DisplayIdInjective` | backend/app/services/alerts.py:144-144 | the printed id determines year and number, however wide the number |
| `DisplayIds.CommittedIdsAreUnique` | backend/app/services/incidents.py:96-127 | no two committed rows of a tenant carry the same display id |
| `DisplayIds.AloneGetsNext` | backend/app/services/alerts.py:129-144 | a transaction that has the counter to itself issues the next number |
| `DisplayIds.AbortDiscards` | backend/app/services/alerts.py:129-144 | an aborted transaction leaves no trace |
| `DisplayIds.PrintsLikeThis` | backend/app/services/alerts.py:115-115 | number 123 of 2026 prints as ALT-2026-000123 |
| `DisplayIds.SixDigits` | backend/app/services/alerts.py:144-144 | numbers below a million print in six digits, larger ones in full |
| `Lifecycle.AlwaysDerived` | backend/app/services/alerts.py:320-358 | after any requests, legal or not, the history is a legal path from the initial status to the current one, the closing time is set exactly in closing statuses, and the milestone time is its first entry |
| `Lifecycle.AlertsAreDerived` | backend/app/services/alerts.py:320-358 | an alert begins NEW, is closed exactly in FALSE_POSITIVE, RESOLVED and CLOSED at the time of its last move, and is acknowledged at its first move to IN_PROGRESS |
| `Lifecycle.AlertMovesByTarget` | backend/app/services/alerts.py:54-63 | the table read by target: from where each alert status can be reached |
| `Lifecycle.IncidentMovesByTarget` | backend/app/services/incidents.py:56-66 | the same for incidents |
| `Lifecycle.RequestsAreJudged` | backend/app/services/alerts.py:324-331 | asking for the status an alert has changes nothing, a move not in the table is refused, any other sets the status |
| `Lifecycle.HistoryReplays` | backend/app/services/alerts.py:304-358 | the history alone, fed back as requests, rebuilds the row |
| `Lifecycle.IncidentsAreDerived` | backend/app/services/incidents.py:268-297 | after any requests an incident's history is a legal path to its status, the closing time is set exactly in CLOSED, and containment is stamped at its first entry |
| `Lifecycle.RecoveryNeedsEradication` | backend/app/services/incidents.py:56-66 | no incident recovers without eradication the step before, and investigation or containment before that |
| `Lifecycle.ReopenedIsAcknowledged` | backend/app/services/alerts.py:54-67 | an alert that was closed and is open again has been acknowledged |
| `Alerts.SearchDuplicate` | backend/app/services/alerts.py:147-169 | the search finds the specified alert |
| `Alerts.FindDuplicateExact` | backend/app/services/alerts.py:147-169 | nothing is found only if no open alert with the key was seen since the cutoff; what is found was seen last |
| `Alerts.CandidateExactly` | backend/app/services/alerts.py:156-169 | an alert may be folded into exactly if it is the tenant's, under the key, seen since the cutoff, and NEW, IN_PROGRESS or ESCALATED |
| `Alerts.SeverityOrder` | backend/app/services/alerts.py:252-259 | critical, high, medium, low, informational in this order; unknown severities rank with the lowest |
| `Alerts.FoldInto` | backend/app/services/alerts.py:189-205 | the sequence of updates computes the fold |
| `Alerts.FoldSummarises` | backend/app/services/alerts.py:189-205 | folding an input into an exact summary gives an exact summary of one input more |
| `Alerts.ExactSummary` | backend/app/services/alerts.py:172-249 | over any serial run of inputs and transitions, occurrence counts sum to the number of inputs, and each alert holds the highest score with its bucket, the highest severity, the last 200 ids of the concatenation, and lookups at most one window after the previous stamp |
| `Alerts.StampsAreClose` | backend/app/services/alerts.py:156-190 | if no stamp trails its lookup by more than d, consecutive stamps of one alert are at most the window plus d apart |
| `Alerts.StampsReachTheBound` | backend/app/services/alerts.py:156-190 | that distance is reached, for every window and every d |
| `Alerts.EveryInputHasOneAlert` | backend/app/services/alerts.py:172-249 | every input of a run belongs to exactly one alert, and each alert summarises its inputs in the order received |
| `Alerts.CreatesExactlyWhenNew` | backend/app/services/alerts.py:182-207 | an alert is opened if and only if no open alert with the key was seen within the window |
| `Alerts.LifecyclesAreDerived` | backend/app/services/alerts.py:304-358 | however inputs and transitions mix, the lifecycle fields of every alert are what its history says |
| `Alerts.Service.CreateOrUpdateAlert` | backend/app/services/alerts.py:172-249 | the answer is the new alert, or an alert of the same episode; it alone changes, its log ends with this input, a new one is NEW and a folded one keeps its lifecycle; the store after the call is the specified one |
| `Alerts.Service.TransitionAlert` | backend/app/services/alerts.py:304-358 | another tenant's alert is not found; a move not in the table is refused and changes nothing; otherwise status, stamps and history follow |
| `Ingestion.IngestKeeps` | backend/app/services/ingestion.py:78-200 | after every call the expiring counters and claims say what the whole history says |
| `Ingestion.StoreRefinesHistory` | backend/app/services/ingestion.py:78-200 | with a clock that does not go back, the store answers every call of a run as a reference with the whole history does |
| `Ingestion.TopicsFollow` | backend/app/services/ingestion.py:112-134 | bus, dead-letter topic and loss counter hold exactly what was answered, in order, under any clock |
| `Ingestion.AnswersMean` | backend/app/services/ingestion.py:78-134 | every answer, in the order the tests are made: rate limit, empty, too large, published a short while ago, published, publication failed; and how the refusals end |
| `Ingestion.TopicsMean` | backend/app/services/ingestion.py:112-134 | an event is on the bus if and only if some call with it was accepted, and dead-lettered with a reason if and only if some call was answered so |
| `Ingestion.WindowIsAMinute` | backend/app/services/ingestion.py:149-150 | a window is sixty seconds of the clock |
| `Ingestion.CounterLivesTwoMinutes` | backend/app/services/ingestion.py:151-153 | a counter created by a call starts at one and lives for 120 seconds; otherwise it is incremented and keeps its expiry |
| `Ingestion.LimitedExactly` | backend/app/services/ingestion.py:143-154 | the store turns a call away if and only if the tenant has made `limit` calls in that minute before, under any clock |
| `Ingestion.CountIsCalls` | backend/app/services/ingestion.py:143-154 | the counter key cannot expire inside its own minute, so it has counted every call in it |
| `Ingestion.AdmitsExactly` | backend/app/services/ingestion.py:143-154 | of the store's answers per tenant and minute exactly min(calls, limit) are admissions, under any clock |
| `Ingestion.AtMostTwice` | backend/app/services/ingestion.py:143-154 | in no interval of sixty seconds does the store admit more than twice the limit |
| `Ingestion.TwiceIsAdmitted` | backend/app/services/ingestion.py:144-148 | for every limit some run makes the store admit twice the limit within sixty seconds |
| `Ingestion.TwiceIsReached` | backend/app/services/ingestion.py:144-148 | and, as soon as one byte is allowed, some run publishes twice the limit within sixty seconds, all with different keys |
| `Ingestion.ClaimMeansPublished` | backend/app/services/ingestion.py:156-166 | the expiring claim a call meets is live if and only if the key was published less than a TTL before |
| `Ingestion.DuplicateExactly` | backend/app/services/ingestion.py:78-134 | the store answers DUPLICATE if and only if the call passed limit and validation and it published the same key less than a TTL before |
| `Ingestion.PublicationsAreApart` | backend/app/services/ingestion.py:156-166 | two publications of one key by the store are at least a TTL apart |
| `Ingestion.RetryIsNotDuplicate` | backend/app/services/ingestion.py:114-125 | after a failed publication a later call is answered DUPLICATE only if the key was published in between |
| `Ingestion.Conservation` | backend/app/services/ingestion.py:78-200 | every call is on the bus, dead-lettered, counted as lost, or turned away, and nothing else is anywhere |
| `Ingestion.IngestionService.WithinRateLimit` | backend/app/services/ingestion.py:143-154 | the counter after the call, and admission exactly below the limit |
| `Ingestion.IngestionService.ClaimIdempotencyKey` | backend/app/services/ingestion.py:156-163 | the claim is taken, with its expiry, exactly when no live claim stands |
| `Ingestion.IngestionService.DeadLetterEvent` | backend/app/services/ingestion.py:168-200 | dead-lettered if the topic takes it, otherwise counted as lost |
| `Ingestion.IngestionService.Funnel` | backend/app/services/ingestion.py:78-134 | the whole call computes the specified outcome and store |
| `Ingestion.IngestionService.IngestEvent` | backend/app/services/ingestion.py:78-134 | the answer is the one the whole history gives |
| `Cef.SplitUnescaped` | backend/app/parsers/cef.py:62-79 | the loop with its buffer and escape flag computes the split |
| `Cef.SplitJoin` | backend/app/parsers/cef.py:62-79 | splitting then joining is the identity on every text |
| `Cef.UnescapeEscape` | backend/app/parsers/cef.py:82-83 | the three sequential replacements undo the escape of every text, up to the final strip |
| `Text.StripMeans` | backend/app/parsers/cef.py:82-83 | stripping takes whitespace off both ends, all of it and nothing else |
| `Cef.FindAllOrdered` | backend/app/parsers/cef.py:86-94 | key matches are in order, do not overlap and lie within the text |
| `Cef.KeyCharacters` | backend/app/parsers/cef.py:30-30 | the characters a key may begin with and hold |
| `Cef.MatchExactly` | backend/app/parsers/cef.py:30-30 | a match begins exactly where the text begins with a key or where whitespace is followed by one |
| `Cef.CollectMeans` | backend/app/parsers/cef.py:86-94 | of equal keys the last one counts |
| `Cef.ParseExtension` | backend/app/parsers/cef.py:86-94 | the loop over key matches computes the dictionary in which the last of equal keys wins |
| `Cef.ParseHeader` | backend/app/parsers/cef.py:40-59 | the header loop computes the named header fields |
| `CefRoundTrip.HeaderNames` | backend/app/parsers/cef.py:18-26 | the names of the seven header fields, in order |
| `Cef.Parse` | backend/app/parsers/cef.py:40-59 | the parser computes the specified fields, or an error exactly when there is no CEF prefix or too few segments |
| `CefRoundTrip.SplitEscaped` | backend/app/parsers/cef.py:62-79 | an escaped field holds no delimiter the splitter sees |
| `CefRoundTrip.NoKeyInValue` | backend/app/parsers/cef.py:30-30 | no key is matched inside an escaped value, even one that reads like a key |
| `CefRoundTrip.FindAllIsLeftmost` | backend/app/parsers/cef.py:86-94 | the search finds the leftmost, non-overlapping keys |
| `CefRoundTrip.FindAllLeftmost` | backend/app/parsers/cef.py:86-94 | on every text the keys found are the leftmost, non-overlapping ones |
| `CefRoundTrip.ExtensionRoundTrip` | backend/app/parsers/cef.py:86-94 | printing and parsing an extension returns its pairs in order, values stripped |
| `CefRoundTrip.RoundTrip` | backend/app/parsers/cef.py:40-94 | printing an event behind any envelope and parsing it returns its fields, values stripped |
| `CefRoundTrip.RoundTripExact` | backend/app/parsers/cef.py:40-94 | with distinct names the round trip is exact if and only if no value has surrounding whitespace |
| `Risk.ScoreIsMean` | backend/app/risk/engine.py:76-89 | the score is the rounded mean and lies in 0..100; the final clamp never changes it |
| `Risk.PointsBounds` | backend/app/risk/factors.py:71-103 | a factor's points lie between zero and its weight, whatever the input |
| `Risk.PointsAreShares` | backend/app/risk/factors.py:71-103 | a value in range gives its share of the weight to four decimals, one outside the nearest end |
| `Risk.EachFactorAlone` | backend/app/risk/model.py:79-94 | each factor alone at its highest gives its weight in sixtieths |
| `Risk.BucketBoundaries` | backend/app/risk/model.py:55-60 | 25, 50 and 75 begin their buckets |
| `Risk.Monotone` | backend/app/risk/engine.py:76-89 | raising a factor that has data never lowers the score |
| `Risk.AddingExactly` | backend/app/risk/engine.py:76-87 | data for one more factor keeps the mean from falling if and only if its points make up for the weight it adds beyond the floor |
| `Risk.AddingUnderFloor` | backend/app/risk/model.py:90-94 | while the weight with data stays within the floor, more data never lowers the score |
| `Risk.NoRiskLowers` | backend/app/risk/engine.py:76-87 | past the floor, a factor that says there is no risk lowers every mean above zero |
| `Risk.ScoreFallsExactly` | backend/app/risk/engine.py:76-89 | data for one more factor lowers the integer score if and only if the points fall short of what the old score needs over the new weight |
| `Risk.ScoreCanFall` | backend/app/risk/engine.py:76-89 | severity, confidence and asset at their highest score 100; a user risk of zero added gives 87 |
| `Risk.AnomalyMovesLittle` | backend/app/risk/factors.py:225-240 | the anomaly factor, appearing or changing, moves the mean by at most five points |
| `Risk.CriticalNeedsWeight` | backend/app/risk/model.py:55-60 | a CRITICAL score needs at least 45 points of weight with data |

## Left out

- Regular expressions and address arithmetic: `matches` has no compiled form, so it appears only where it is refused; whether an address is in a network is a parameter shared by both paths.
- Case folding is one function per character; foldings that change the length of a text are not modelled.
- Numbers are real numbers; NaN, infinities and floating-point rounding are not modelled (rounding to integers and to four decimals in the score is).
- CompilerPreservesMeaning: covers keyword, number, boolean and address fields, and dates in the scope of a search. Analysed text and index limits such as `ignore_above` are not modelled. Of the conditions that can be written (`Modelled`), the following are not covered, because the store's reading of them cannot be seen in this repository: ranges on keyword, boolean, address and date fields; equality and `in` on address and date fields; `cidr` on number, boolean and date fields, and `cidr` with networks that are not texts or have spaces around them; lists, objects and null as operands of scalar tests.
- PositiveAgrees: well-typed conditions only, as are NegativeAgreesExactly and NeverOverMatches; undeclared fields, numeric operands on keyword fields and operators the store refuses have their own exact statements above.
- CompilerAccepted: which terms a field type reads (numbers, booleans, addresses) follows the store's documented behaviour, and lists or objects as operands of scalar operators have no printed form here.
- EmptyListDisagrees: rests on the event store's documented reading of a bool query without any clause, which matches everything; that reading is outside this repository.
- Documents: a path is given as its segments; a literal key that contains a dot is not modelled.
- Query.CompilesExactlyWhenSupported: `unsupported_operators` and `non_textual_fields` fill local collections in loops; they are modelled as functions on values, since only their results matter.
- WindowedRefinesNaive: suppression claims are a parameter, distinct counts are exact rather than approximate, and the evidence attached to a match is not modelled.
- CorrelationRuns.AppendScript: the expiry it sets on the key is not modelled, nor is suppression after a match.
- CorrelationRuns.ProcessRule: matching an input to the stages of a rule is given as the list of stage names, and the entity key as a text.
- CursorCostsNothingExactly: quantifies over all ordered rules with distinct stages and positive counts; the schema further asks for two required stages and counts up to 1000.
- The timeline, summary and document of a correlation match are presentation of the selected hits.
- PlaybookService.Service.StartRun: the refusal of an alert of another tenant, before anything is written, is not modelled.
- PlaybookService.Service.RunPlaybook: the summaries and details inside results are not modelled, only which steps they are for and of what kind.
- Playbooks: approvals take no lock, so operations are modelled one after the other; what a step computes and the context it leaves for later steps (which is empty after a resumption) are not modelled, only whether it succeeds.
- Alerts: first creation takes no lock, so calls are modelled one after the other; among alerts seen at the same instant the database may return any, the model takes the first.
- Alerts.Service.TransitionAlert: assignment of an analyst, notes and audit rows are not modelled.
- HistoryReplays: a history row's own time is set by the database in the source and the stamps on the alert by the service; here one instant stands for both.
- Lifecycle: in the incident table `Opened` and `Done` stand for NEW and CLOSED; the incident timeline is not modelled.
- Ingestion: one instant per call stands for the process clock and the store's clock; failures of the counter store itself are not modelled; message headers are left out, and the idempotency key is given rather than hashed.
- RoundTrip: text is characters, not bytes; line breaks written as escapes are outside what the parser undoes.
- Risk: which value each factor takes from its input (lookup tables, strongest indicator, worst technique) is a parameter; the theorems hold for any values.
- Hunting: field validation, time ranges and the list of searched fields only assemble clauses whose meaning is covered above.
- Web routes, response schemas, database models, migrations, authentication, enrichment, the other log parsers, ATT&CK coverage, assets, users, metrics and the frontend.

# A virtual tabletop's rules of play, proved

This project models the self-contained protocols and algorithms of a virtual tabletop: the browser client's dice
notation and quest ordering, and the Python gateway's rate limiter, ambience loader, audited narrative stream,
autosave loop, damage-expression validator, timeline paging, death-save audit and in-memory store. It proves what
the code and its documentation promise about them, for every input, every run and every interleaving.

`dafny verify dfyconfig.toml` checks everything. Each module cites the source file it models.

## How the model is built

| modules | what they are |
|---|---|
| `Text` | options, results, decimal numerals, Python's white space |
| `QuestOrder`, `QuestPreorder` | the stack walk over quest graphs against a recursive depth-first walk, against reachability, and position by position |
| `DiceGrammar`, `DiceParser`, `DiceSpelling`, `DicePrinter` | the parser as a cursor that moves, as a reader of the remaining text, and as a grammar of spellings; all three agree; printing is its inverse |
| `KeepSelection`, `DiceRolls`, `DiceReported`, `DiceRoller` | rolling with rerolls, explosions and keeps over a die source given as an oracle; the books of draws; the optimum of keep; the rules every reported die follows; the loops of the evaluator |
| `DiceLimits`, `DiceDrawOrder`, `DiceListOrder` | which expressions roll whatever the dice show; when the lists of a roll, pool by pool and for a whole expression, are in the order their comments claim |
| `SlidingWindow`, `WindowVerdicts`, `SharedWindow`, `SharedRuns` | the limiter's pruned table against a full history; N replicas racing on one Redis set; both told from their verdicts and moves alone |
| `SingleFlight` | the ambience loader as a machine of requests, completions, cancellations and resets, and the code between its awaits |
| `Timeline`, `TimelineCursor`, `TimelineProjection` | merge, cursors and their texts, pages over feeds that change between requests, and the role projection |
| `DeathAudit`, `DeathEvents`, `DeathEpisodes`, `DeathHealing` | the single pass over the ledger, what it reads in an event's own fields, the episodes each token's own events tell, and where the comments tell others |
| `AuditedStream` | the generator that holds text until its sentence has passed an arbitrary auditor |
| `ChatLog` | the capped chat log and its Postgres twin |
| `Autosave`, `AutosavePolicies`, `AutosaveStore`, `AutosaveGateway` | the autosave loop with every await a step boundary; what the tables show throughout and how a cycle goes through its list; the store's and gateway's methods, whose uninterrupted cycle is one run of those steps |
| `DamageExpression`, `DamageValidator`, `DamageInClient` | the validator's pattern, its two separate searches, its limits, and what the client makes of the same text |

Code that changes state step by step is a class or a method with loops, proved equal to a function of its inputs or
of the old state; the promises are then proved about that function. Concurrent code is a state machine whose moves
may come in any order the source allows.

What the outside world answers is a parameter: the die source is a function of draw number and die, the auditor is
any function of the text, storage and engine calls may succeed or raise, the clock is a number, the lobby roster
changes freely between awaits. Ghost records such as the history of autosave facts or the log of draws exist for
the statements only; the source keeps no such record.

## Where the code and its own text disagree

The model follows the code.

- Explosions are drawn inside the loop over dice (`client/src/api/dice_notation.ts:344-350`), not after all dice as
  the comment at lines 284-287 says; when that makes no difference is `DiceDrawOrder.ExplosionsComeLastExactlyWhen`.
- `rolls` and `dropped` are said to be in draw order (lines 272-275). They are for every outcome only under the
  conditions of `DiceListOrder.ExpressionInOrderExactlyWhen`, which `DiceDrawOrder.RollsAreInDrawOrderExactlyWhen` and
  `DroppedAreInDrawOrderExactlyWhen` give for each pool.
- `validateDiceExpression` only parses: "2d6kh3" passes and then never rolls (`DiceRolls.KeepThreeOfTwo`). What a
  parsed expression needs to roll whatever the dice show is `DiceLimits.RollsWhateverTheDiceShow`.
- A dice term's sign is parsed and printed but never counts (`DiceRolls.TotalAddsUp`).
- The limiter's key cap does not bound the table (`SlidingWindow.CapDoesNotBound`); passing it only sweeps stale
  keys, which is enough exactly under the condition of `SlidingWindow.CapHoldsExactlyWhen`.
- Replicas sharing a Redis set may exceed the limit by N - 1 (`SharedWindow.SharedLimitIsReached`); the limit holds in
  every run exactly for a single replica (`SharedWindow.LimitIsKeptExactlyWhen`).
- The projection's documentation promises unknown roles the spectator's view; the code gives them the player's,
  which is the same exactly for public lines (`TimelineProjection.UnknownRoleIsPlayer`).
- A hidden entity's id must never reach a player through the timeline, the projection says
  (`python/vtt_orchestrator/timeline.py:579-586`). It does with an engine event that has no type
  (`TimelineProjection.UntypedEventShowsItsActor`) and would with a private line about one; the exact condition is
  `TimelineProjection.NoHiddenIdExactlyWhen`.
- Paging delivers the whole feed exactly when every entry lies behind the starting position (0, "") and the feed
  falls apart cleanly at every page's end: the page's last entry has an id, everything later lies strictly behind it
  and nothing earlier does (`TimelineProjection.TimelineIsDeliveredExactlyWhen`). So an event before the epoch, or one
  with neither a time nor a usable id, is delivered to nobody (`Timeline.EarlyEntryIsLost`,
  `Timeline.UndatedUnnamedExample`), and an entry without an id at the end of a full page sends the reader round for
  ever (`Timeline.MissingIdStartsOver`, `Timeline.ReaderEndsExactlyWhen`). When all entries have ids and places of
  their own, only negative times stand in the way (`Timeline.PagesAreTheFeed`). Ids compare as text
  (`Timeline.TenBeforeNine`, `Timeline.NumberOrderExactlyWhen`).
- The death audit never looks at healing, although its comments say that healing closes an episode
  (`DeathHealing.HealedTokenStillDies`, `DeathHealing.HealingIsMissedExactlyWhen`); nor does an instant-death flag
  open one by itself (`DeathHealing.FlagAloneIsNoTrigger`, `DeathHealing.FlagTriggersExactlyWhen`).
- The in-memory store documents ids that are never reused; they are, exactly when the line with the highest id ever
  given is gone (`ChatLog.NextIdRepeatsExactlyWhen`, `ChatLog.WithdrawnIdComesAgain`).
- Autosave checks standing in each cycle, but the check and the save are separate awaits
  (`Autosave.StandingMayLapseBeforeTheSave`); `Autosave.SavesNeedStanding` says when standing still holds. An edit
  checked before the loop disabled a policy may land after it (`Autosave.AnEarlierCheckMayReenable`), and nothing
  else re-enables one without a fresh check (`Autosave.StaysDisabledExactlyWhenNothingPends`). The other way round, the
  loop may disable a policy that a freshly checked edit has just set (`Autosave.AFreshEditMayBeOverwritten`), exactly
  when it was about to already (`Autosave.EnabledStaysExactlyWhen`). Recorded saves keep
  the interval the cycle listed, not one edited while it runs (`Autosave.AnEditMayComeTooLate`,
  `Autosave.IntervalIsCurrentExactlyWhen`).
- The server accepts damage expressions the client refuses: "0d6", and texts with the separators U+001C to U+001F or
  U+0085, which are white space to Python only (`DamageInClient.ZeroDiceExample`, `DamageInClient.NextLineExample`;
  `DamageInClient.ClientReadsTheSameTerms` is the exact condition).

## Model

| member | source | states |
|---|---|---|
| QuestOrder.OrderQuestNodes | client/src/api/quest_store.ts:112-131 | The stack walk that marks at pop and pushes choices in reverse, and the closing pass, return exactly the recursive depth-first preorder followed by the nodes whose own id was not reached, on every finite graph, cyclic or dangling |
| QuestOrder.PushChoices | client/src/api/quest_store.ts:123-125 | Pushing the choices backwards leaves them on the stack in authored order |
| QuestOrder.AppendUnmarked | client/src/api/quest_store.ts:127-129 | The closing pass adds, in record order, the nodes whose id is not among the reached keys |
| QuestOrder.VisitStep | client/src/api/quest_store.ts:116-126 | Popping a seen or dangling key changes nothing that is still to be listed; popping a new one lists it with its choices in front of everything waiting |
| QuestOrder.WalkIsReached | client/src/api/quest_store.ts:107-111 | The walk lists exactly the keys that some path of choices from the initial key reaches, each once |
| QuestOrder.WalkFresh | client/src/api/quest_store.ts:116-126 | A walk lists only existing, unseen keys and each at most once |
| QuestOrder.WalkClosed | client/src/api/quest_store.ts:119-125 | No choice of a listed node is left unexplored |
| QuestPreorder.NextIsNearestOpenChoice | client/src/api/quest_store.ts:107-126 | After the first p keys comes the first unlisted choice, in authored order, of the latest listed node that still has one; the walk starts at the initial node and ends when no listed node has one |
| QuestOrder.PermutationExactlyWhenIdsAgree | client/src/api/quest_store.ts:127-130 | The display list is a permutation of the nodes if and only if each key is reached exactly when the id its node carries is reached |
| QuestOrder.WellKeyedIsPermutation | client/src/api/quest_store.ts:107-131 | When keys are node ids, every node is shown exactly once, the reached ones first |
| DiceGrammar.ParseInRange | client/src/api/dice_notation.ts:130-244 | Whatever parses is a non-empty list of terms inside the documented limits |
| DiceParser.Cursor.SkipWs | client/src/api/dice_notation.ts:109-111 | Moves over white space and nothing else |
| DiceParser.Cursor.TakeSign | client/src/api/dice_notation.ts:117-129 | Consumes an optional sign after white space and reports it |
| DiceParser.Cursor.ParseNumber | client/src/api/dice_notation.ts:130-148 | Digit-by-digit reading with the early overflow exit gives the number of the whole digit run, none when there is none, and the overflow error exactly when the value passes the limit |
| DiceParser.Cursor.ParseSuffixes | client/src/api/dice_notation.ts:189-233 | The unordered suffix loop gives what the reader of the remaining text gives, error for error |
| DiceParser.Cursor.ParseTerm | client/src/api/dice_notation.ts:150-240 | One term, constant or dice, as the reader of the remaining text gives it |
| DiceParser.ParseExpression | client/src/api/dice_notation.ts:106-244 | The cursor-moving parser returns exactly what the recursive reader returns on every text, errors included |
| DiceSpelling.SpellingIsParsed | client/src/api/dice_notation.ts:106-244 | Every spelling the grammar allows (suffix order, letter case, gaps, leading zeros, bare dX, default keep) parses to its meaning |
| DiceSpelling.ParsedIsSpelling | client/src/api/dice_notation.ts:106-244 | Every accepted text is such a spelling of what it parses to |
| DiceSpelling.ParserIsTheGrammar | client/src/api/dice_notation.ts:106-244 | A text parses to a list of terms if and only if the grammar spells that list with it |
| DicePrinter.ParsePrint | client/src/api/dice_notation.ts:449-456 | Printing any in-range term list and parsing it gives the list back |
| DicePrinter.ParsePrintParse | client/src/api/dice_notation.ts:106-244 | Parse, print, parse equals parse on every accepted text |
| DicePrinter.PrintIsInjective | client/src/api/dice_notation.ts:449-456 | Different in-range lists never print alike |
| DicePrinter.PrintIsPlain | client/src/api/dice_notation.ts:449-456 | Every list prints in one plain form: each term with its sign, each pool with its count, small letters, the explosion last, no white space and no leading zeros |
| KeepSelection.OrderSorted | client/src/api/dice_notation.ts:366-370 | The sorted index list is sorted for the comparator and holds every index |
| KeepSelection.SortedUnique | client/src/api/dice_notation.ts:367-370 | The comparator leaves one sorted order, so the sorting algorithm does not matter |
| KeepSelection.KeptLeads | client/src/api/dice_notation.ts:363-372 | Exactly n dice are kept and each comes before every die left out, ties to the lower index |
| KeepSelection.KeptIsOptimal | client/src/api/dice_notation.ts:363-372 | khN keeps a subset of maximal sum among all N-subsets, klN one of minimal sum |
| KeepSelection.KeptIsUnique | client/src/api/dice_notation.ts:367-371 | The kept set is the only choice of n dice that comes before all others |
| DiceRolls.DieDrawsItsValues | client/src/api/dice_notation.ts:326-352 | What one die drew is its discarded value, its standing value and its explosion chain, in that order |
| DiceRolls.PoolDraws | client/src/api/dice_notation.ts:326-352 | A pool draws die by die, each with its own chain, at most 12 values per die |
| DiceRolls.RolledIsRecorded | client/src/api/dice_notation.ts:342-393 | Each value a die was rolled as is recorded once: rerolled away, standing, dropped or bonus |
| DiceRolls.TermConserves | client/src/api/dice_notation.ts:301-402 | After each term the recorded values are exactly the draws and the running count is their number; a term that fails made at most 13000 draws |
| DiceRolls.DrawsAreConserved | client/src/api/dice_notation.ts:301-402 | For every term list the multiset of draws equals rolls plus dropped; success means at most 2000 draws, failure at most 13000 |
| DiceRolls.KeepIsOptimal | client/src/api/dice_notation.ts:363-384 | Of all ways to keep as many dice, kh adds the most to the rolls and kl the least |
| DiceRolls.ModifierIsConstants | client/src/api/dice_notation.ts:302-311 | The modifier is the sum of the signed constants, and only dice terms add rolls |
| DiceRolls.TotalAddsUp | client/src/api/dice_notation.ts:404-447 | The total is rolls plus modifier; with dice, rolls and dropped are all the draws; constants alone are reported as their only roll |
| DiceRolls.ListsAreShown | client/src/api/dice_notation.ts:386-402 | The rolls are the values shown as kept and as bonus, the dropped ones those shown as rerolled away or left out, the modifier the constants with their signs, term by term as the breakdown shows them |
| DiceRolls.TermsAreRolled | client/src/api/dice_notation.ts:301-402 | The breakdown holds one entry for each term, a pool of as many dice as it asks for or its constant |
| DiceReported.DieIsRuled | client/src/api/dice_notation.ts:326-352 | A die was rerolled, once, exactly when its first value met the condition, and stands at the second then, whatever that is; it has bonus dice exactly when it may explode and stands at the highest face; every bonus die but the last shows that face, and so does the last after ten only |
| DiceReported.PoolIsRuled | client/src/api/dice_notation.ts:313-384 | A pool has as many dice as asked for; all are marked kept, or exactly as many as the suffix says and each of these beats every other by value, or by place at the same value |
| DiceReported.ReportedAsRuled | client/src/api/dice_notation.ts:292-447 | Every roll reports its terms in the order written, constants with their signs and pools by the rules of their terms, and the dice show the source's first answers, at most 2000, in the order they were given |
| DiceRolls.NaturalExactlyWhen | client/src/api/dice_notation.ts:404-420 | natural20 if and only if the only dice term is a single d20 that did not explode and shows 20; natural1 likewise with 1 |
| DiceLimits.RollsWhateverTheDiceShow | client/src/api/dice_notation.ts:313-358 | A parsed expression rolls with every source of values in 1..sides if and only if every keep count and reroll threshold fits its pool and the most it can draw (count times one, plus one if a face is rerolled, plus ten if it explodes) is at most 2000 |
| DiceLimits.ValidTextRollsExactlyWhen | client/src/api/dice_notation.ts:95-102 | The same for a text that passes the form's validation |
| DiceLimits.FittingAlwaysRolls | client/src/api/dice_notation.ts:353-358 | Fitting terms whose most draws stay within the cap never fail |
| DiceDrawOrder.TermAppends | client/src/api/dice_notation.ts:395-401 | A term appends to rolls, dropped and the draws exactly the lists whose order is compared |
| DiceDrawOrder.RollsAreInDrawOrderExactlyWhen | client/src/api/dice_notation.ts:272-273 | A pool's rolls are in draw order whatever the dice show if and only if it does not explode, is a single die or keeps the one highest |
| DiceDrawOrder.DroppedAreInDrawOrderExactlyWhen | client/src/api/dice_notation.ts:274-275 | A pool's dropped values are in draw order whatever the dice show if and only if no face is rerolled, no die is dropped, or two-sided dice drop just one of the face that is rerolled |
| DiceDrawOrder.ExplosionsComeLastExactlyWhen | client/src/api/dice_notation.ts:284-287 | Drawing explosions after all dice, as the comment says, gives the same pool whatever the dice show if and only if it does not explode or is a single die |
| DiceDrawOrder.TwoSixesExample | client/src/api/dice_notation.ts:386-395 | "2d6!" drawing 6, 1, 2 reports 6, 2, 1 |
| DiceDrawOrder.LowThenRerolledExample | client/src/api/dice_notation.ts:342-383 | A die dropped before another is rerolled is listed behind it |
| DiceListOrder.TermsAdd | client/src/api/dice_notation.ts:313-402 | The evaluator appends to rolls and dropped, over all terms, exactly the pools' lists, each term drawing where the one before stopped |
| DiceListOrder.ListInOrderExactlyWhen | client/src/api/dice_notation.ts:272-275 | A list gathered from all terms is in draw order whatever the dice show if and only if every pool's part is |
| DiceListOrder.ExpressionInOrderExactlyWhen | client/src/api/dice_notation.ts:272-275 | Of an expression that rolls whatever its dice show, the evaluated rolls (dropped) are always in draw order if and only if every pool meets the condition of its kind |
| DiceRolls.KeepThreeOfTwo | client/src/api/dice_notation.ts:95-102 | "2d6kh3" validates and never rolls |
| DiceRoller.SeededIsOnTheDie | client/src/api/dice_notation.ts:59-69 | Every value of the seeded stream lies in 1..sides |
| DiceRoller.ForOne | client/src/api/dice_notation.ts:59-69 | The first d100 faces of seed 1 are 63, 1 and 53 |
| DiceRoller.ForFortyTwo | client/src/api/dice_notation.ts:59-69 | The first d20 faces of seed 42 are 13, 9, 18 and 14 |
| DiceRoller.ForZero | client/src/api/dice_notation.ts:60-61 | Seed 0, whose state is replaced, gives the d6 faces 3, 1, 5 and 6 |
| DiceRoller.SeededRng.Next | client/src/api/dice_notation.ts:62-68 | The closure that updates captured state yields the n-th value of the seed's stream |
| DiceRoller.RollOneDie | client/src/api/dice_notation.ts:326-352 | One turn of the per-die loop: draw, at most one reroll, explosions; a bad threshold is noticed after the first draw |
| DiceRoller.Explode | client/src/api/dice_notation.ts:344-350 | The chain ends at the first other face or after ten rolls |
| DiceRoller.RollPool | client/src/api/dice_notation.ts:325-352 | The pool loop rolls each die where the one before stopped drawing |
| DiceRoller.SelectKept | client/src/api/dice_notation.ts:363-372 | The keep set of a pool |
| DiceRoller.Divide | client/src/api/dice_notation.ts:374-384 | Splits the pool into kept and dropped values, in die order, and marks the dice |
| DiceRoller.CollectBonus | client/src/api/dice_notation.ts:386-393 | Explosion extras of every die count, kept or not |
| DiceRoller.EvaluateTerm | client/src/api/dice_notation.ts:301-402 | One turn of the term loop does what the conserving term evaluation does, with the draws counted |
| DiceRoller.EvaluateTerms | client/src/api/dice_notation.ts:301-402 | The term loop with its running totals |
| DiceRoller.EvaluateDiceExpression | client/src/api/dice_notation.ts:292-447 | A roll from text to result, with at most 2000 draws on success and 13000 on failure |
| SlidingWindow.MemoryWindowBackend.Check | python/vtt_orchestrator/ratelimit.py:109-123 | Prune, decide, record and sweep: verdict and new table as specified |
| SlidingWindow.MemoryWindowBackend.SweepStaleKeys | python/vtt_orchestrator/ratelimit.py:125-135 | Removes exactly the empty and stale keys |
| SlidingWindow.PruningIsInvisible | python/vtt_orchestrator/ratelimit.py:109-135 | From any table and history that agree, every verdict of a run equals the full-history verdict, whenever sweeps happen |
| SlidingWindow.LimiterRefinesHistory | python/vtt_orchestrator/ratelimit.py:109-135 | For every multi-key run from an empty table with a nondecreasing clock the pruned, swept limiter gives the verdicts computed from all hits ever admitted |
| SlidingWindow.NeverOverLimit | python/vtt_orchestrator/ratelimit.py:109-123 | Of the hits a limiter admits that forgets none, no window-length interval holds more than the key's limit |
| SlidingWindow.PrunedNeverOverLimit | python/vtt_orchestrator/ratelimit.py:109-135 | The same for the hits the pruned and swept table admits over any run on a nondecreasing clock |
| SlidingWindow.CapHoldsExactlyWhen | python/vtt_orchestrator/ratelimit.py:119-135 | After an admitted check the table is within the key cap if and only if no more than that many of its keys are not stale |
| WindowVerdicts.AdmittedExactlyWhen | python/vtt_orchestrator/ratelimit.py:109-123 | After any run of the pruned and swept table a check is admitted if and only if fewer hits of its key than the limit were admitted within the window that ends now; otherwise the seconds told are the whole seconds that still pass before the oldest of them leaves, plus one |
| WindowVerdicts.KeysLeftExactly | python/vtt_orchestrator/ratelimit.py:112-135 | A refused check leaves the table as it was; an admitted one keeps its live hits and the new one and, beyond the key cap, drops exactly the keys without a hit in the last two windows |
| SlidingWindow.CapDoesNotBound | python/vtt_orchestrator/ratelimit.py:71-73 | Whatever the cap, n identities asking at one time leave n keys |
| SlidingWindow.RefusedIsAdmittedLater | python/vtt_orchestrator/server.py:4651-4658 | In one run of the pruned and swept table, whatever went before: a check refused with r seconds, of whose key no hit is admitted until a later check, is admitted then if at least r seconds have passed, refused if less than r - 1 have, and after exactly r - 1 admitted if and only if the oldest live hit leaves at that moment (section 10.2.3 of RFC 9110) |
| SlidingWindow.RetryAfterIsHonest | python/vtt_orchestrator/ratelimit.py:112-116 | The same for the verdict computed from the full history, to which every verdict of the table is equal |
| SharedWindow.MoveKeepsSize | python/vtt_orchestrator/ratelimit.py:174-193 | Set size plus pending writes stays within limit + N - 1 at every step |
| SharedWindow.RunKeepsInv | python/vtt_orchestrator/ratelimit.py:155-193 | Over every interleaving nothing admitted that still counts is pruned or expired, and window counts stay bounded |
| SharedRuns.RunIsTold | python/vtt_orchestrator/ratelimit.py:155-193 | After every run of a fresh fleet the set, its expiry, each replica's phase and the admitted hits are those read off the moves alone: a reading admits if and only if fewer hits than the limit that reached the server since the last expiry lie in the window, a failed call ends a replica's calls, the set expires max(1, ceil(window)) seconds after its last write; and which move may come next |
| SharedRuns.SetChangesExactlyBy | python/vtt_orchestrator/ratelimit.py:174-193 | A reading that reaches the server removes exactly the hits that have left the window, a write that does adds the time of its reading, a call that does not changes nothing |
| SharedRuns.TimeToLiveLives | python/vtt_orchestrator/ratelimit.py:189-191 | The time to live is the least whole number of seconds that is at least one and at least the window |
| SharedWindow.SharedLimitIsBounded | python/vtt_orchestrator/ratelimit.py:138-193 | N replicas interleaving read and write phases admit at most limit + N - 1 hits in any window |
| SharedWindow.SharedLimitIsReached | python/vtt_orchestrator/ratelimit.py:174-193 | For every N and limit some run does admit limit + N - 1, so the bound cannot be lowered |
| SharedWindow.LimitIsKeptExactlyWhen | python/vtt_orchestrator/ratelimit.py:138-193 | Every run from a fresh fleet of n replicas keeps every window at or under the limit if and only if n is 1 |
| SharedWindow.RedisWindowBackend.Check | python/vtt_orchestrator/ratelimit.py:155-172 | Read and write phase of one replica; any error degrades to the fallback for good |
| SharedWindow.OneReplicaMatchesMemory | python/vtt_orchestrator/ratelimit.py:146-148 | With one replica the verdicts, Retry-After included, are the memory backend's |
| SingleFlight.SingleFlightIsSafe | python/vtt_orchestrator/server.py:5288-5416 | In every reachable state: each unresolved future has a live leader or adopter; at most one generation per key between resets; answered waiters got their run's outcome; the cache is the 12 most recently used successful results within the cap |
| SingleFlight.MoveKeepsInv | python/vtt_orchestrator/server.py:5311-5416 | Each request, join, finish, failure, cancellation, adoption and reset keeps the invariant |
| SingleFlight.SettlesOnceAndOnlyItsOwn | python/vtt_orchestrator/server.py:5394-5416 | A future is resolved once; settling frees no slot but its own, also across a reset; failures and over-cap payloads leave the cache alone; waiters see no cancellation but their own |
| SingleFlight.SuccessIsCached | python/vtt_orchestrator/server.py:5292-5307 | Resuming or adopting a run that landed a payload within the cap resolves its future with it, stores it as the most recently used entry, and a request of the key that comes next starts no run |
| SingleFlight.FailureIsPassedOn | python/vtt_orchestrator/server.py:5394-5416 | Resuming or adopting any other run resolves its future with the run's own error, with the over-cap error or as abandoned, and leaves the cache as it was |
| SingleFlight.HitStartsNothing | python/vtt_orchestrator/server.py:5338-5341 | A request of a cached key answers with the entry, moves it to the recently used end and starts no run |
| SingleFlight.MissJoinsOrStarts | python/vtt_orchestrator/server.py:5342-5378 | A request of a key not cached joins the run that holds its slot if there is one and starts the only new run otherwise |
| SingleFlight.RunsChangeExactlyBy | python/vtt_orchestrator/server.py:5354-5416 | A run changes by its own moves only: its call lands or is cancelled, a cancelled leader leaves it to the adopter, and whoever settles it finishes it and resolves its future with the payload, the call's error, the over-cap error or as abandoned |
| SingleFlight.WaitersChangeExactlyBy | python/vtt_orchestrator/server.py:5342-5352 | A waiter is answered by its own delivery, with what the future it joined holds, or by its own cancellation, and by nothing else; a slot is freed by a reset or by its own run settling and by nothing else |
| SingleFlight.OnlyOnce | python/vtt_orchestrator/server.py:5342-5416 | Each call ends once, each run settles once by its leader or its adopter, each waiter is answered once, and exactly when that is due |
| SingleFlight.StaysExactlyWhile | python/vtt_orchestrator/server.py:5303-5307 | From a payload's last use on (its storing or a hit), as long as there is no reset, it is found if and only if fewer than twelve other keys have been used since, in every run |
| SingleFlight.RunsUseUpTheirMoves | python/vtt_orchestrator/server.py:5383-5416 | A run needs at most three moves of its own, whatever others do, and then its future is resolved |
| SingleFlight.NothingHangs | python/vtt_orchestrator/server.py:5354-5378 | While a future is unresolved its run can move |
| SingleFlight.WaitersCanBeAnswered | python/vtt_orchestrator/server.py:5343-5348 | A resolved future can answer every waiter |
| SingleFlight.TouchNewest | python/vtt_orchestrator/server.py:5304-5307 | Evicting as you go keeps the same entries as remembering all uses and cutting off the newest |
| SingleFlight.Evict | python/vtt_orchestrator/server.py:5306-5307 | The eviction loop keeps the entries at the recently used end |
| SingleFlight.AmbienceLoader.ResetAmbienceCache | python/vtt_orchestrator/server.py:5282-5285 | Clears cache and join table; runs under way go on |
| SingleFlight.AmbienceLoader.StoreAmbience | python/vtt_orchestrator/server.py:5288-5308 | Cap check, insert, eviction |
| SingleFlight.AmbienceLoader.LoadAmbience | python/vtt_orchestrator/server.py:5338-5352 | From request to first await: hit with LRU touch, join, or new run |
| SingleFlight.AmbienceLoader.ResumeLeader | python/vtt_orchestrator/server.py:5390-5416 | The leader settles its run: failure, over-cap or success |
| SingleFlight.AmbienceLoader.LeaveToAdopter | python/vtt_orchestrator/server.py:5385-5389 | A cancelled leader detaches and wakes nobody |
| SingleFlight.AmbienceLoader.AdoptRun | python/vtt_orchestrator/server.py:5354-5378 | The detached callback resolves the future if it is open and frees the slot if it is its own |
| Timeline.SortOrderIsCursorOrder | python/vtt_orchestrator/timeline.py:641-647 | On formatted entries the sort order (time, kind, id) is the cursor order (time, id) |
| Timeline.SortIsIncreasing | python/vtt_orchestrator/timeline.py:627-648 | The merged feed is strictly increasing for the cursor and holds exactly the entries of both streams |
| Timeline.CursorRoundTrip | python/vtt_orchestrator/timeline.py:651-669 | Decoding an entry's cursor gives its position, negative times and ids with colons included |
| TimelineCursor.IntIsReadExactlyWhen | python/vtt_orchestrator/timeline.py:662-669 | A text reads as n if and only if it spells n in the way Python's int accepts: white space around it, an optional sign, digits with single underscores between them |
| TimelineCursor.CursorIsReadExactlyWhen | python/vtt_orchestrator/timeline.py:658-669 | A cursor leads to the position it names, a number, its first colon and the id behind it, and to the beginning if and only if it names that or none |
| TimelineCursor.CursorIsSpelled | python/vtt_orchestrator/timeline.py:651-655 | An entry's cursor is its time, signed only when negative and without leading zeros, a colon and its id; empty if and only if it has none |
| Timeline.FilterAfterCursor | python/vtt_orchestrator/timeline.py:672-698 | The page loop returns the first entries strictly behind the cursor, with the limit clamped as in the source |
| Timeline.SessionTimeline | python/vtt_orchestrator/server.py:7403-7412 | The route's page, next_cursor and has_more |
| Timeline.CursorsArePositions | python/vtt_orchestrator/timeline.py:651-669 | A reader who follows cursor texts collects what one who knows positions would |
| Timeline.NothingTwice | python/vtt_orchestrator/timeline.py:677-682 | However the feed changes between requests, no entry is delivered twice and all come in order |
| Timeline.NothingSkipped | python/vtt_orchestrator/timeline.py:677-682 | An entry behind the cursor that is present at every request is delivered to a reader who gets to the end |
| Timeline.DeliveredExactlyWhen | python/vtt_orchestrator/timeline.py:672-698 | A reader without a cursor is delivered the feed, each entry once and in order, if and only if every entry lies behind (0, "") and at each multiple of the page size the feed falls apart cleanly: the entry before has an id, all later ones lie strictly behind it and no earlier one does; for every feed in which an entry that would come again behind a position is not the one due there, as in every sorted feed |
| Timeline.PagesAreTheFeed | python/vtt_orchestrator/timeline.py:672-698 | For a strictly increasing feed that is: every entry lies behind (0, "") and no page's last entry lacks an id; when all entries have ids the reader gets to the end, with the whole feed if and only if no time is negative |
| Timeline.MissingIdStartsOver | python/vtt_orchestrator/timeline.py:651-655 | When a first full page ends in an entry without an id, every request delivers that page again and the reader never gets to the end |
| Timeline.ReaderEndsExactlyWhen | python/vtt_orchestrator/timeline.py:651-669 | A reader of any feed at rest gets to the end if and only if no full page on the way ends in an entry without an id |
| Timeline.ReaderEndsByPosition | python/vtt_orchestrator/timeline.py:651-669 | Of a strictly increasing feed: if and only if no entry at a multiple of the page size, counted behind (0, ""), lacks an id |
| Timeline.EarlyEntryIsLost | python/vtt_orchestrator/timeline.py:658-661 | An entry with a negative time, or with time 0 and no id, is delivered to no reader of any feeds |
| Timeline.UndatedUnnamedExample | python/vtt_orchestrator/timeline.py:706-725 | An event with neither a time nor a usable id: the reader gets to the end and has not met it |
| Timeline.TenBeforeNine | python/vtt_orchestrator/timeline.py:641-647 | "e_10" sorts before "e_9" within one millisecond |
| Timeline.NumberOrderExactlyWhen | python/vtt_orchestrator/timeline.py:641-647 | Of two events of one millisecond the lower number comes first if and only if it is at most the other's leading digits of its length |
| TimelineProjection.ProjectFeed | python/vtt_orchestrator/server.py:7391-7401 | The projection loop of the route |
| TimelineProjection.ProjectionIsStable | python/vtt_orchestrator/timeline.py:522-598 | A projection keeps time, kind, id and channel, projecting again changes nothing, and only spectators lose entries |
| TimelineProjection.HiddenEntitiesStayHidden | python/vtt_orchestrator/timeline.py:566-596 | For an unprivileged viewer of a public entry the hidden actor's id never remains; recorded ids are cleaned if and only if the event has a type or none was hidden; details are withheld exactly when the actor or, with a type, a target is hidden |
| TimelineProjection.WhatPublicEntriesShow | python/vtt_orchestrator/timeline.py:540-598 | gm and admin see a public entry verbatim. Others see it verbatim when no hidden entity is involved; else summary and type are withheld and it is marked private; the name is [Unknown] if and only if the actor is hidden or the entry carried that name; the actor's id goes exactly when hidden; of the recorded ids exactly the hidden ones of a typed event go |
| TimelineProjection.WhatPrivateLinesShow | python/vtt_orchestrator/timeline.py:522-540 | gm and admin see a private line whole, a spectator none of it, anyone else that there is one: name, summary and type withheld, time, kind, channel and ids kept |
| TimelineProjection.PrivateLinesKeepTheirIds | python/vtt_orchestrator/timeline.py:552-564 | A player's copy of a private line keeps actor id and recorded ids |
| TimelineProjection.NoHiddenIdExactlyWhen | python/vtt_orchestrator/timeline.py:579-586 | For every entry and unprivileged role, when exactly what is shown carries no hidden id |
| TimelineProjection.UntypedEventShowsItsActor | python/vtt_orchestrator/timeline.py:613-614 | An engine event without a type hands its hidden actor's id to a player |
| TimelineProjection.UnknownRoleIsPlayer | python/vtt_orchestrator/timeline.py:552-564 | Every unprivileged role but "spectator" sees what a player sees, which is what a spectator sees if and only if the line is public |
| TimelineProjection.SpectatorIsPublicPlayer | python/vtt_orchestrator/timeline.py:543-555 | The spectator feed is the player feed without the private-channel entries |
| TimelineProjection.ProjectTwice | python/vtt_orchestrator/timeline.py:522-598 | Projecting a feed twice equals projecting it once |
| TimelineProjection.ProjectSort | python/vtt_orchestrator/timeline.py:627-648 | Projection commutes with the stable sort |
| TimelineProjection.ProjectMerge | python/vtt_orchestrator/server.py:7389-7401 | Projecting before or after the merge gives the same feed |
| TimelineProjection.OrderedHasNoEcho | python/vtt_orchestrator/timeline.py:627-648 | In a sorted list, ties and all, an entry that would come again behind a position is not the one due there |
| TimelineProjection.FeedIsGood | python/vtt_orchestrator/server.py:7389-7403 | What the route pages through is strictly increasing and fully named |
| TimelineProjection.TimelineIsDeliveredExactlyWhen | python/vtt_orchestrator/server.py:7389-7412 | For all streams, roles and limits from 1 to 500: following next_cursor from the start delivers the merged projected feed exactly if and only if every entry shown lies behind (0, "") and the feed falls apart cleanly at every page's end; for formatted streams with distinct places, if and only if no time shown is negative |
| DeathAudit.BuildDeathAudit | python/vtt_orchestrator/death_audit.py:186-311 | The single pass with its table of open episodes and its drain |
| DeathAudit.DrainOpen | python/vtt_orchestrator/death_audit.py:295-298 | Open episodes are reported last, in the order they were opened |
| DeathEvents.TriggersExactlyWhen | python/vtt_orchestrator/death_audit.py:250-290 | An event opens an episode if and only if it is not reverted, has one of the three damage shapes and says that positive damage left its target no hit points; the episode is that token's, numbered and typed like the event, over at once only if the event says the death was instant |
| DeathEvents.SavesExactlyWhen | python/vtt_orchestrator/death_audit.py:131-161 | An event is a save if and only if it is a resolved death save, not reverted, of its own actor or else the one its payload names, with roll and result as the payload holds them |
| DeathEvents.KindIsTold | python/vtt_orchestrator/death_audit.py:131-161 | The kind of a save from its result label and natural roll, every label written out |
| DeathEvents.EffectExactly | python/vtt_orchestrator/death_audit.py:237-243 | A save that is not set aside closes its episode as died if and only if its result reads DEAD in any case of letters, as stabilized if and only if it does not and reads STABILIZED or CRITICAL_SUCCESS_REVIVED_1HP or is a critical success; a save is ignored if and only if its kind says the token was already dead or stable |
| DeathEvents.EntriesEndAsTold | python/vtt_orchestrator/death_audit.py:237-300 | For every ledger and reported entry: died if and only if its trigger was an instant death or its last attempt reads DEAD; stabilized if and only if the last attempt does not and reads STABILIZED or CRITICAL_SUCCESS_REVIVED_1HP or is a critical success; no attempt before the last could have ended it |
| DeathEpisodes.PassShowsView | python/vtt_orchestrator/death_audit.py:211-298 | From any state of the pass, what is reported for a token is its entries so far, its open episode continued and its later episodes |
| DeathEpisodes.AuditIsEpisodes | python/vtt_orchestrator/death_audit.py:186-298 | For each token the audit is one entry per trigger in ledger order, with exactly the saves from the trigger to the closing save or the token's next trigger |
| DeathEpisodes.SavesAreRecordedOnce | python/vtt_orchestrator/death_audit.py:220-248 | The attempts of a token's entries, one entry after the other, are exactly its saves that count and met an open episode, in ledger order |
| DeathEpisodes.TokensAreIndependent | python/vtt_orchestrator/death_audit.py:208-298 | The entries of a token are those of the sub-ledger about it, however others are interleaved |
| DeathEpisodes.RevertedDoNotCount | python/vtt_orchestrator/death_audit.py:214-215 | Removing all reverted events leaves the entries unchanged |
| DeathEpisodes.OneEntryPerTrigger | python/vtt_orchestrator/death_audit.py:253-298 | As many entries as qualifying unreverted triggers |
| DeathEpisodes.ClosedEntriesAreStable | python/vtt_orchestrator/death_audit.py:225-277 | The closed entries of a ledger are a prefix of those of every extension |
| DeathHealing.HealingIsMissedExactlyWhen | python/vtt_orchestrator/death_audit.py:204-208 | The entries of a token are those in which healing closes an episode as stabilized if and only if no healing of it falls between a trigger that is no instant death and the closing save or its next trigger |
| DeathHealing.HealedTokenStillDies | python/vtt_orchestrator/death_audit.py:204-208 | A token that drops, is healed and rolls a save is reported as in progress, with the save |
| DeathHealing.FlagTriggersExactlyWhen | python/vtt_orchestrator/death_audit.py:261-269 | Code and comment agree whether an event triggers if and only if its instant-death flag comes with damage to zero |
| DeathHealing.FlagAloneIsNoTrigger | python/vtt_orchestrator/death_audit.py:261-269 | Instant death with hit points left opens no episode |
| AuditedStream.Audited | python/vtt_orchestrator/server.py:5716-5823 | The generator emits exactly the specified frames, for every auditor and chunking |
| AuditedStream.ReleaseSentences | python/vtt_orchestrator/server.py:5786-5803 | The inner loop releases complete sentences until one fails or none is left |
| AuditedStream.CloseStream | python/vtt_orchestrator/server.py:5805-5823 | The unterminated rest is audited before it is released |
| AuditedStream.ReleaseFacts | python/vtt_orchestrator/server.py:5786-5803 | Released sentences passed the audit and, with what is still held, are the held text |
| AuditedStream.SentenceEndExactly | python/vtt_orchestrator/server.py:5786-5803 | A sentence is cut at n if and only if n is the end of the leftmost position that holds one of . ! ? … and is followed by one white-space character or the end of the text; nothing is cut if and only if there is no such position |
| AuditedStream.StreamIsSound | python/vtt_orchestrator/server.py:5717-5730 | Released text is a prefix of the text received and all audited; every released piece but a closing one ends in the first sentence end it contains, and every audited piece is such a sentence or the unterminated rest; nothing from the model follows a failure, the corrective frame names every failure; one done frame ends the stream; only blanks are held back when nothing fails; text and the halt are tagged degraded from the first notice on, the halt with the last notice's reason |
| AuditedStream.DegradationIsTold | python/vtt_orchestrator/server.py:5755-5785 | Each degradation is told to the client, with its reason and in order, as long as nothing halts the stream |
| AuditedStream.UnhaltedReleasesAll | python/vtt_orchestrator/server.py:5805-5823 | A stream no audit halted releases all the model's text up to trailing white space |
| AuditedStream.ChunkingDoesNotMatter | python/vtt_orchestrator/server.py:5784-5823 | For any auditor, two chunkings of one text that are not halted release the same up to trailing white space |
| ChatLog.MemoryStore.AppendChatMessage | python/vtt_orchestrator/storage.py:631-676 | Trim then append, with the id after the highest live one |
| ChatLog.MemoryStore.ListChatMessages | python/vtt_orchestrator/storage.py:678-682 | Exactly the session's rows, each as often as stored, in order of id |
| ChatLog.MemoryStore.GetChatMessage | python/vtt_orchestrator/storage.py:684-696 | The row of that session and id, or none when there is no such row |
| ChatLog.MemoryStore.DeleteChatMessage | python/vtt_orchestrator/storage.py:698-712 | Withdraws the row and says whether it was there |
| ChatLog.NextIdFollowsTheHighest | python/vtt_orchestrator/storage.py:651-652 | Of any rows at all, the next id is one more than the session's highest, and 1 if it has none |
| ChatLog.AppendShowsCapped | python/vtt_orchestrator/storage.py:631-676 | An append shows the last 10000 lines, issues an id above all live ones and touches no other session |
| ChatLog.TwinAppendShowsCapped | python/vtt_orchestrator/storage.py:1270-1305 | Insert-then-trim shows the same capped log |
| ChatLog.WithdrawMemory | python/vtt_orchestrator/storage.py:698-712 | Withdrawing the k-th line removes that line and no other |
| ChatLog.WithdrawTwin | python/vtt_orchestrator/storage.py:1337-1351 | The same for the Postgres twin |
| ChatLog.StepKeepsTwins | python/vtt_orchestrator/storage.py:631-712 | Each append or withdrawal keeps the two stores alike |
| ChatLog.TwinsShowTheSameLog | python/vtt_orchestrator/storage.py:631-712 | After every run both stores show the same log up to ids, of at most 10000 lines with rising ids |
| ChatLog.IdsNeverRepeat | python/vtt_orchestrator/storage.py:651-655 | Ids are never reused in runs that never withdraw the newest line |
| ChatLog.NextIdRepeatsExactlyWhen | python/vtt_orchestrator/storage.py:651-655 | The next id was given before if and only if the line with the highest id ever given is gone |
| ChatLog.WithdrawnIdComesAgain | python/vtt_orchestrator/storage.py:651-655 | A line appended after the first one was withdrawn gets the first one's id |
| Autosave.MoveKeepsInv | python/vtt_orchestrator/server.py:1296-1394 | Each roster change, policy edit, manual save, deletion, cycle step and failure keeps the invariant |
| Autosave.RunKeepsInv | python/vtt_orchestrator/server.py:1296-1394 | So does every run |
| Autosave.SavesNeedStanding | python/vtt_orchestrator/server.py:1320-1381 | Whenever a cycle fetches, saves or records a slot, that cycle checked that very slot before and found standing; standing still holds then if and only if the last roster change since the check, if any, keeps it |
| Autosave.EditsNeedStanding | python/vtt_orchestrator/server.py:1249-1274 | An applied policy edit is one that a staff request with standing asked for, with that enablement and interval |
| Autosave.EachEditIsAppliedOnce | python/vtt_orchestrator/server.py:1267-1273 | Each granted request is applied once or still pending |
| Autosave.ReenablingNeedsFreshStanding | python/vtt_orchestrator/server.py:1320-1341 | A policy the loop disabled while no enabling edit was pending is enabled again only after a later staff request found standing |
| Autosave.StaysDisabledExactlyWhenNothingPends | python/vtt_orchestrator/server.py:1267-1273 | A disabled policy stays disabled in every future without a fresh grant if and only if no enabling edit of it is pending |
| Autosave.EnabledStaysExactlyWhen | python/vtt_orchestrator/server.py:1330-1341 | An enabled policy, such as an edit just applied leaves it, stays as it is in every future that applies no other edit of it and finds standing at its checks if and only if the loop is not about to disable it |
| Autosave.DisabledStaysDisabled | python/vtt_orchestrator/server.py:1320-1341 | A policy disabled by the loop stays disabled until an edit of it is applied |
| Autosave.CycleBegan | python/vtt_orchestrator/server.py:1304-1315 | A cycle works on what it listed when it began: enabled then, with the interval and progress of then |
| Autosave.RecordedSavesAreSpaced | python/vtt_orchestrator/server.py:1315-1318 | Consecutive recorded saves of a slot are at least the interval listed by the later cycle apart and differ in event count |
| Autosave.OnlyEditsChangeIntervals | python/vtt_orchestrator/server.py:1330-1334 | While a cycle runs a listed policy's interval is the listed one if and only if the last edit applied since, if any, has it; disabling writes back the listed one |
| Autosave.IntervalIsCurrentExactlyWhen | python/vtt_orchestrator/server.py:1315-1318 | The interval a recorded save kept is the policy's current one if and only if the last edit of it applied since the cycle began, if any, has that interval |
| Autosave.AnEditMayComeTooLate | python/vtt_orchestrator/server.py:1315-1381 | A run with two recorded saves five minutes apart under a policy of a day, because the edit was applied while the cycle ran |
| Autosave.RowsAreUnique | python/vtt_orchestrator/storage.py:282-306 | Under any interleaving of manual saves, deletions and the loop, owner and name identify at most one row |
| AutosavePolicies.RequestIsTakenExactlyWhen | python/vtt_orchestrator/server.py:1249-1274 | A policy request is taken up if and only if its interval is 1 to 1440 minutes, and leaves an edit to be written if and only if its caller is staff and has standing |
| AutosavePolicies.TablesChangeExactlyBy | python/vtt_orchestrator/storage.py:337-376 | A slot's policy is written by an applied edit of it and by the loop's disabling of it, as they say, its progress by the recording of its save, and nothing else changes either |
| AutosavePolicies.IntervalsStayInRange | python/vtt_orchestrator/server.py:1249-1274 | In every run every stored, pending or listed interval lies between 1 and 1440 |
| AutosavePolicies.CycleStepsExactly | python/vtt_orchestrator/server.py:1304-1394 | With no policy in hand a cycle takes up the next, passes over it if its check raises though it is due, or ends when none is left; with one in hand it makes that policy's next call or the call raises; no cycle begins while another runs |
| AutosavePolicies.CycleGoesThroughAll | python/vtt_orchestrator/server.py:1304-1394 | From beginning to end a cycle takes up the policies it listed one after the other, in their order, and ends when it has been through all of them |
| AutosaveStore.MoveStores | python/vtt_orchestrator/storage.py:282-324 | One step: what a manual save or the loop writes is found under its owner and name with its events and, if a row stood there, that row's id; what is deleted is found no more; everything else is found as before |
| AutosaveStore.StoreShowsLastWritten | python/vtt_orchestrator/server.py:1375-1378 | At every point of every run each owner and name shows the last snapshot written there, or nothing if none was or it has been deleted since |
| AutosaveStore.SavesStoreTheSnapshot | python/vtt_orchestrator/server.py:1375-1378 | Every save of the loop leaves the snapshot's events under the policy's owner and the session's periodic name and every other row as it was |
| Autosave.StandingMayLapseBeforeTheSave | python/vtt_orchestrator/server.py:1330-1378 | A run in which standing is lost between the check and the save, and the save happens |
| Autosave.AnEarlierCheckMayReenable | python/vtt_orchestrator/server.py:1269-1273 | A run in which an edit checked before the loop disabled the policy is applied after it |
| Autosave.AFreshEditMayBeOverwritten | python/vtt_orchestrator/server.py:1330-1334 | A run in which the check fails, standing returns, an enabling edit is granted and applied, and the loop then disables the policy with standing in place and nothing pending |
| Autosave.SlotsAreApartExactlyWhenPrefixesDiffer | python/vtt_orchestrator/server.py:1288-1293 | Two sessions of an owner keep separate rolling saves if and only if their first eight characters differ |
| AutosaveStore.SaveIdsNeverRepeat | python/vtt_orchestrator/storage.py:282-324 | In every run the rows that stand have ids of their own, and a new row gets an id above that of any row that ever stood, deleted since or not |
| AutosaveGateway.HasSessionStanding | python/vtt_orchestrator/server.py:1227-1246 | Standing means a lobby of the caller bound to the session |
| AutosaveGateway.Gateway.UpsertCampaignSave | python/vtt_orchestrator/storage.py:282-306 | Overwrites the first row of that owner and name, else appends one with a new id |
| AutosaveGateway.Gateway.DeleteCampaignSave | python/vtt_orchestrator/storage.py:319-324 | Removes the owner's row of that id only |
| AutosaveGateway.Gateway.UpsertAutosavePolicy | python/vtt_orchestrator/storage.py:337-345 | Sets one policy and keeps the table's order |
| AutosaveGateway.Gateway.RecordAutosaveRun | python/vtt_orchestrator/storage.py:371-376 | Sets one slot's progress |
| AutosaveGateway.Gateway.ListEnabledAutosavePolicies | python/vtt_orchestrator/storage.py:354-369 | All enabled policies in table order with their progress |
| AutosaveGateway.Gateway.SetAutosavePolicy | python/vtt_orchestrator/server.py:1249-1274 | Written if and only if the interval is in range, the caller is staff and has standing; a refusal writes nothing |
| AutosaveGateway.HandledIsMoves | python/vtt_orchestrator/server.py:1311-1393 | What one policy of a cycle does is a legal run of steps |
| AutosaveGateway.HandledReports | python/vtt_orchestrator/server.py:1382-1386 | The result names exactly the saves that were recorded |
| AutosaveGateway.HandledStores | python/vtt_orchestrator/server.py:1315-1378 | One policy of a cycle writes under its owner and periodic name exactly when it is due, has standing, the engine answers with another count than the last save's and the write goes through; nothing else changes |
| AutosaveGateway.HandledLeaves | python/vtt_orchestrator/server.py:1320-1385 | One policy of a cycle is disabled, with the interval listed, exactly when it is due, has no standing and the write goes through; its progress is set to the new count and this time exactly when its snapshot was stored and recorded |
| AutosaveGateway.CycleStores | python/vtt_orchestrator/server.py:1296-1394 | Over a whole pass each owner and name shows the snapshot of the last policy that stored one there, and what stood there before if none did |
| AutosaveGateway.ItemsAreListed | python/vtt_orchestrator/storage.py:354-369 | The items of a pass are the policies' intervals, five where none is set, and the count and time of their last recorded save |
| AutosaveGateway.Gateway.RunAutosaveCycle | python/vtt_orchestrator/server.py:1296-1394 | Whatever each await answers, an uninterrupted cycle leaves the stored rows of a legal run of the step machine; it reports exactly the snapshots that were stored and recorded, in order, and each stands in the store under the policy's owner and periodic name unless a later policy of the cycle stored there; all other rows are as before; it disables exactly the due policies without standing, and enters progress exactly for what it reports |
| DamageExpression.ReadingIsUnique | python/vtt_orchestrator/server.py:2854-2856 | A text matches the pattern in one way at most |
| DamageExpression.InGrammarExactly | python/vtt_orchestrator/server.py:2854-2856 | The deterministic reading finds a match if and only if there is one |
| DamageExpression.DiceAreFound | python/vtt_orchestrator/server.py:2870-2870 | On the terms behind the first, the dice search finds exactly the dice terms in order |
| DamageExpression.ConstantsAreFound | python/vtt_orchestrator/server.py:2879-2879 | On the terms behind the first, the constant search finds exactly the constants in order |
| DamageExpression.SearchesFindTheTerms | python/vtt_orchestrator/server.py:2854-2884 | On every matching text, outer space included, both searches find exactly the terms of its one reading |
| DamageValidator.PassesExactlyWithinLimits | python/vtt_orchestrator/server.py:2847-2885 | A text passes if and only if it reads as terms with at most 40 dice in all, allowed sides and constants of at most 100 |
| DamageValidator.FirstBrokenRuleIsTold | python/vtt_orchestrator/server.py:2862-2885 | Of a text that reads as terms, the rule told is the one the first offending dice break, allowed sides before the total of 40; if no dice offend, the one on constants when one is over 100; otherwise the text passes |
| DamageValidator.NotDiceExactlyWhen | python/vtt_orchestrator/server.py:2862-2868 | A text is told to be no dice if and only if it does not read as terms |
| DamageValidator.Matches | python/vtt_orchestrator/server.py:2863-2863 | A left-to-right matcher decides the pattern |
| DamageValidator.FindDice | python/vtt_orchestrator/server.py:2870-2870 | The dice search, leftmost and non-overlapping |
| DamageValidator.FindConstants | python/vtt_orchestrator/server.py:2879-2879 | The constant search with its start anchor and lookahead |
| DamageValidator.CheckDiceTerms | python/vtt_orchestrator/server.py:2869-2878 | The running total and the side check stop at the first offending term |
| DamageValidator.CheckConstantTerms | python/vtt_orchestrator/server.py:2879-2884 | The constants stop at the first one over the limit |
| DamageValidator.ValidateDamageExpression | python/vtt_orchestrator/server.py:2862-2885 | The validator returns the text or the first rule it breaks |
| DamageInClient.ClientReadsTheSameTerms | client/src/api/dice_notation.ts:106-244 | Of the accepted texts the client parses exactly those without zero dice and without white space unknown to JavaScript, and reads the server's terms |
| DamageInClient.AcceptedIsShared | client/src/api/dice_notation.ts:109-111 | A text the client accepts has no white space that only Python knows |
| DamageInClient.ZeroDiceExample | client/src/api/dice_notation.ts:173-176 | "0d6" passes on the server and is refused by the client |
| DamageInClient.NextLineExample | client/src/api/dice_notation.ts:109-111 | So is a text with U+0085 between two terms |

## Left out

- Text of error and log messages; parse errors are told apart by kind, without their positions.
- Letters beyond ASCII where the source changes case, and digits beyond ASCII that Python's `int` and `\d` accept.
- Python's limit on the length of integer literals (4300 digits), on which `int` raises.
- Numbers a JSON payload may hold beyond integers, truth values, texts and null; floats that equal an integer.
- DeathAudit.BuildDeathAudit: does not model the TypeError the source raises when a save that is pending carries a natural roll that is no number; such a roll reads as absent. The source's test whether an episode is already among the entries compares fields, and so does the model.
- QuestOrder.OrderQuestNodes: does not model node ids that name properties every JavaScript object inherits, nor the numeric-key order of `Object.values`; record order is a parameter.
- DiceRoller.SeededRng.Next: models the arithmetic on 32-bit words exactly and the scaling to a die as integer division, which the double-precision product matches because it is exact; distribution and statistical quality of the stream are not considered.
- SlidingWindow.MemoryWindowBackend.Check: times are reals, so rounding of floating-point sums is not modelled; limits are those of the table, all at least 1.
- SharedWindow.SharedLimitIsBounded: covers hits admitted through Redis; a replica that degrades counts alone from then on, as the source says.
- SingleFlight.AmbienceLoader.LoadAmbience: the preset lookup with its 404 and the default model name are resolved before the model's key.
- Timeline.SessionTimeline: the limit is the route's validated 1 to 500; the raw ledger and chat records reach the model as formatted entries, so the event-by-event summaries are not modelled.
- TimelineProjection.ProjectFeed: the search for ids in a summary, used for entries without a recorded id list, is an arbitrary function.
- AuditedStream.Audited: frames that are JSON but no objects are not modelled; the source raises on them. No claim is made about sentence boundaries across chunkings, because the pattern's end anchor holds at the end of each chunk.
- ChatLog.TwinAppendShowsCapped: insert, count and delete are one step; concurrent inserts between them are not modelled.
- Autosave.RecordedSavesAreSpaced: speaks of the interval the later cycle listed, because the policy's current interval may have been edited since and the code does not look again.
- Autosave.RunKeepsInv: a snapshot is represented by its ledger length; round number, quest and faction slots travel with it and are not modelled. One gateway worker, as the source demands.
- AutosaveGateway.Gateway.UpsertCampaignSave: the counter that numbers the saves numbers narrations too in the source, so saves skip numbers there; narrations are not modelled.
- AutosaveGateway.Gateway.RunAutosaveCycle: runs uninterrupted; interleaving is what the step machine is for.
- DamageValidator.Matches: the source's regular expression engine is replaced by a hand-written matcher proved to decide the same set of texts.
- React views, fetch wrappers, HTTP routing, authentication, SQL and Redis internals, model and media calls, and the Rust engine.
- Rule tables, clamps, safety-card toggles and debouncing: one-branch facts.
- The client's own ambience store: a fetch that ends after a clear may refill its cache, so the loader's invariants do not hold there.

# Verified model of the capability engine and its validators

This project models, in Dafny, how the learning platform decides what a learner can do, keeps those decisions in step
with an append-only log of evidence, and checks a whole history when it is imported.

**The capability engine.** Evidence is a log of facts, links, retractions and invalidations. Criteria are judged from
the facts of one competency and scope, the highest level whose cumulative criteria are demonstrated becomes the
candidate, and a downgrade policy with hysteresis, which reads back the engine's own events, decides what level is
recorded. Every change of the log queues work; drains claim queue items, evaluate, and append state events.

- `ActiveFacts`, `Criteria`, `Levels`, `Downgrade`, `Evaluation` hold the decision functions, from the active facts at a
  cutoff to the run, the event and the cached projection one evaluation records.
- `Meaning`, `FactLaws`, `OccurrenceDictionary`, `RuleLaws`, `RuleOrder`, `RuleEvidence` and `CriterionLaws` say what
  the judgements mean on the columns of the rows: which facts count, when the order of facts can change a verdict, and
  which evidence is named. `DowngradeCauses` and `DecisionLaws` do so for the policy and the confidence, and
  `RecordingLaws` for what an evaluation reads and records.
- `History`, `HistoryKept`, `HistoryRuns`, `HistoryLaws` and `AsOf` prove what every run of evaluations keeps, and that
  the view of an earlier cutoff never changes; `ViewLaws` says what that view shows.
- `Freshness`, `Coherence` and `CoherenceLost` prove that the cached capabilities follow the log in every history, and
  exactly when they do not; `WorldHistory` joins these histories to the laws on events, and `ContributionLinks` is the
  command that moves links from one contribution to another.
- `CapabilityStore` is the engine as a class whose methods append rows, claim and finish queue items and rebuild the
  cache; each method is proved against the value-level step it performs, and the laws above are about those steps.
  `CommandLaws`, `QueueLaws` and `Activations` say what the commands compare and append, what a drain does to every item,
  and that active versions never go back.
- `DrainProtocol` interleaves several drainers of one queue, with crashes and recoveries.

**Lifecycles, replays and validators.** `Supersession` models creation, supersession, retraction and the replacement of
a session's evidence, `LifecycleLaws` the rows and replies of each command, and `SupersessionValidator` the validator of
the resulting chains. `SessionRows` edits sessions in
place and records what each edit overwrote; `SessionCorrections` compares undoing those records in stored order with
undoing the edits, `SessionReplay` and `SessionChecks` are the three readers that undo them, and `SessionLaws` says what
each step does to the row. `TodayReplay` holds
the writers and the replay validator of Today interactions, `HistoryValidator` the validator of capability events,
`CycleCheck` the depth-first cycle check and one of its callers.

**Two free-standing pieces.** `TreeDigest` is the byte stream of the front-end tree digest with a parser for it;
`RateLimiter` is the in-memory sliding-window limiter.

## What was found false, and when it holds

- Completing an item leaves its competency fresh unless some scope already has a run of this very millisecond with
  the present facts and definition while its cache holds other facts: `Freshness.FinishKeepsCoherenceIff`,
  `Coherence.MoveKeepsCoherenceIff`. Three evaluations in one millisecond around a link and its retraction get there from
  every state just evaluated, and from an empty store: `CoherenceLost.OneInstantLosesCoherence`,
  `CoherenceLost.CoherenceCanBeLost`. Histories in which nothing changes a competency's facts between two evaluations of it
  at one instant, and nothing is dated in the future, are coherent throughout, however many evaluations an instant has:
  `Coherence.CalmHistoriesAreCoherent`.
- `repeated_independent_performance` keeps the last fact per occurrence. Its verdict is the same for every order of the
  facts unless some occurrences can be represented in two contexts and all can be represented in one:
  `RuleOrder.OrderIrrelevantIff`; `RuleOrder.OrderCanDecide` gives three such facts. No other rule depends on the order.
- The evidence a met rule names meets the rule by itself, except for `repeated_independent_performance`, which names the
  first two or three occurrences although a later one may show the second context. It does exactly when the entries named
  are in two contexts and one is strong: `RuleEvidence.NamedEvidenceSuffices`; `RuleEvidence.NamedEvidenceCanFallShort`
  gives three such facts. Later contradictions and withdrawals are then judged against the evidence named alone.
- Session corrections in one millisecond are undone in the order of their ids, which are random. The view recovers the row
  exactly when, in every column it shows, the first edit since the cutoff and the one with the least time and id found the
  same value: `SessionReplay.ViewIsForwardHistoryIff`. It can then show a wrong value.
- The checking reader of the import rejects a session whose corrections do not chain in that order, at every cutoff:
  `SessionChecks.AcceptedIffFitting` is the exact condition, `SessionChecks.ReversedEditsAreRejected` a life with two edits
  of one column in one millisecond and the ids the other way round. It is accepted if edits of one millisecond that share a
  column have ids in their order (`SessionChecks.WritersAreAccepted`), and a single reversed pair is accepted exactly when
  the two change nothing in the columns they share (`SessionChecks.ReversedPairIsAcceptedIff`). What it accepts is right:
  `SessionChecks.CheckedReplayIsForwardHistory`, and so is then the view, `SessionChecks.AcceptedViewsAreRight`.
- Evidence may be dated in the future (`backend/app/schemas.py:492-523`). When its date comes, the clock alone makes the
  fact active and no work is queued: `CoherenceLost.FutureEvidenceLosesCoherence`. The clock keeps the cache coherent exactly
  when it changes no idle competency: `Freshness.TimeKeepsCoherenceIff`.
- A legacy assessment restart is allowed after its suggestion has expired (`backend/app/today/service.py:804-890`), but the
  import validator then rejects the history, for good: `TodayReplay.WritersAreAcceptedIff`, and
  `TodayReplay.LateRestartsHappen` for such a history.

## Conditions the callers meet

These properties hold of the callers the repository has; the lemmas say what a new caller must observe.

- Recovering running queue items is safe exactly when no live drainer holds one
  (`DrainProtocol.RecoveryIsSafeIffNobodyHolds`, `RecoveryUnderAHolder`). Both callers recover under the exclusive operation
  lock before serving (`backend/app/main.py:68-75`, `backend/app/capability_cli.py:25-31`). A recovery keeps the retry budget
  exactly when no running item is on its last attempt: `DrainProtocol.RecoveryKeepsBudgetIff`.
- The rate limit holds in every window exactly when every add finds room in the window that ends with it
  (`RateLimiter.BudgetHoldsIff`). A check reserves no place (`RateLimiter.ChecksDoNotReserve`), but the check and the add
  of an import stand next to each other with no await between them (`backend/app/import_export.py:3605-3607`).
- A session's evidence keeps its lifecycle exactly when it is created with none active and replaced under a new role:
  `Supersession.CommandKeepsSoundIff`. Sessions are completed once, and corrections pass a fresh role
  (`backend/app/sessions.py:470-475`).
- Retracting a contribution's links queues work for those links only (`backend/app/evidence.py:856-889`). With a replacement
  on another competency the cache stays coherent exactly when that competency is inactive or has work anyway, or all
  evidence that is given a link is withdrawn: `ContributionLinks.ContributionOutcome`. The one caller passes no replacement
  (`backend/app/v2_activities.py:701`).

## Model

| member | source | states |
|---|---|---|
| ActiveFacts.FactsAt | backend/app/capability.py:133-183 | a fact is active at a cutoff exactly when its link and evidence are known and dated by then and neither is withdrawn by then |
| ActiveFacts.ActiveEvidenceFacts | backend/app/capability.py:133-183 | the loop over joined rows returns exactly the active facts, in the query's order |
| FactLaws.ScopeFactsAreExact | backend/app/capability.py:133-183 | the facts of a scope are exactly the rows recorded and occurring by the cutoff with no withdrawal of evidence or link by then, in the order of recording, evidence and link |
| Meaning.OccurrenceIs | backend/app/capability.py:169-180 | two pieces of evidence are of one occurrence exactly when they share an assessment session of a review, or else an artifact, or else source and time |
| Meaning.ContextIs | backend/app/capability.py:181-183 | the context is the recorded one, else the activity, else the legacy word |
| Meaning.GradesMean | backend/app/capability.py:192-268 | what the rules' grades ask of effect, strength, confidence, independence and rubric, column by column |
| Criteria.ByOccurrenceCovers | backend/app/capability.py:223-240 | the dictionary keyed by occurrence loses no occurrence |
| CriterionLaws.ResultIsConsistent | backend/app/capability.py:271-360 | the state follows from whether the rule is met, the unresolved contradictions and the reported counts, and the links reported are exactly those of decisive evidence for or against the criterion |
| RuleLaws.VerdictIsSetBased | backend/app/capability.py:192-268 | a met rule holds of the set of facts, without order or dictionaries, and a rule that holds of the set is met unless the order matters; for every rule and fact list |
| RuleOrder.OrderIrrelevantIff | backend/app/capability.py:192-268 | every order of the facts gives the same verdict exactly when the rule is not the repeated one, or no choice of the last fact per occurrence meets it, or no choice fails it; both are conditions on the set of facts |
| RuleLaws.SharedContextsSettle | backend/app/capability.py:223-240 | when facts of one occurrence share their context the order never matters |
| RuleLaws.VerdictMonotone | backend/app/capability.py:192-268 | adding facts never unmeets a met rule, unless the order of the larger list matters |
| RuleLaws.RuleHierarchy | backend/app/capability.py:192-268 | repeated or authoritative implies independent, independent implies guided, guided implies exposure, for all fact lists |
| RuleOrder.OrderCanDecide | backend/app/capability.py:223-240 | with differing contexts in one occurrence the order of two facts changes the verdict |
| CriterionLaws.StateMeans | backend/app/capability.py:271-360 | the result names the evidence its rule names and exactly the solid contradictions later than every dated fact of that evidence; the state is decided by the rule on the facts' columns, those contradictions, and whether there is support or an attempt |
| CriterionLaws.CountsMean | backend/app/capability.py:278-311 | the counts are of supporting, solid, compatible and attempting occurrences, and nested |
| RuleEvidence.VerdictIsExact | backend/app/capability.py:192-268 | when each rule is met on a list of facts, and which evidence it names, met or not: that of the first qualifying fact, or of the last facts of the occurrences that come first |
| RuleEvidence.NamedEvidenceSuffices | backend/app/capability.py:192-268 | a met rule names one, two or three pieces of evidence as it asks, and their facts meet it by themselves; for the repeated rule exactly when the entries named are in two contexts and one is strong |
| RuleEvidence.NamedEvidenceCanFallShort | backend/app/capability.py:230-245 | three strong facts, the third alone in another context, meet the repeated rule on the evidence of the first two, which does not |
| Levels.CandidateIsHighestPassed | backend/app/capability.py:439-474 | the levels passed are exactly those with a required criterion, all required criteria up to their rank demonstrated, and the unexposed one assessed explicitly; the candidate is the highest of them |
| Levels.PassedIsDownwardClosed | backend/app/capability.py:439-474 | below a passed level every level with its own required criterion passes, apart from the explicit unexposed rule |
| Levels.ImprovementNeverLowers | backend/app/capability.py:439-474 | demonstrating more criteria never lowers the candidate |
| Levels.Assessed.CandidateLevel | backend/app/capability.py:439-474 | the loop finds that candidate and the list of passed levels |
| Levels.HighConfidence | backend/app/capability.py:365-394 | high confidence exactly when no condition on the cumulative criteria is unmet, and which are unmet |
| Levels.LatestMeaningfulEvidence | backend/app/capability.py:400-436 | the latest occurrence time of a solid support of no supporting criterion, independent where the level asks for it: a bound of them all, and attained |
| Downgrade.FreshContradictionsQualify | backend/app/capability.py:633-663 | fresh contradictions are distinct evidence, each of a required criterion, meaningful, and later than the last meaningful and the last used time; if they sustain a downgrade they name two occurrences and one is independent |
| Downgrade.PolicyKeepsItsPromise | backend/app/capability.py:477-675 | a fall has a cause; a sustained contradiction moves one rank on new contradictions of at least two occurrences, one independent; a retained level stays; a rise after a sustained downgrade has later support |
| OccurrenceDictionary.DictionaryKeepsLast | backend/app/capability.py:658-661 | the dictionary keyed by occurrence keeps exactly the last fact of every occurrence |
| DowngradeCauses.CausesAreExact | backend/app/capability.py:477-675 | on rows: below the level before, a withdrawal or link retraction by the cutoff of what decided the run names its cause and evidence, else an agreed lower level on the evidence that overrules, else fresh contradictions of two occurrences one rank down, else the level is retained; at or above it the candidate is taken unless a sustained downgrade waits for support; and exactly which evidence is named |
| DowngradeCauses.AgreedMeans | backend/app/capability.py:577-622 | the reassessed level is the one lower level that authoritative contradictions of every required criterion all name |
| DecisionLaws.DecisionsAreExplained | backend/app/capability.py:838-935 | the confidence of every decision: unknown without a level, low when retained or contradicted, high when nothing is lacking, else medium; what is lacking, the contradictions, the decisive evidence, its diversity and the levels passed follow from the results and the evidence seen |
| RecordingLaws.RunIsDecided | backend/app/capability.py:804-962 | the decision of a run is that of the policy for the highest level earned and the state before, both read from rows, and is explained by its results |
| RecordingLaws.PolicyPriorIsExact | backend/app/capability.py:678-720 | the policy reads the cached row, or for an earlier cutoff the last event known by then with the time of its run's evidence, under its own definition only |
| RecordingLaws.EvaluationIsExact | backend/app/capability.py:873-1098 | a repeated run changes nothing, a replay records its run alone, and a live evaluation its run, its row, and an event exactly when something changed, with its cause |
| HistoryKept.LiveEventIsJustified | backend/app/capability.py:477-675 | the event a live evaluation appends is justified by the scope's earlier events: one-rank sustained falls on unused evidence of two occurrences, causes for falls, later support for rises |
| HistoryRuns.EvaluationKeepsHistory | backend/app/capability.py:766-1111 | one scope's evaluation, live or replayed, keeps events, runs and projections in step |
| HistoryRuns.ReseedRestores | backend/app/capability.py:1397-1451 | rebuilding the cache from events restores level, status, confidence and its facts, definition and version of every scope, and takes run, evidence, cutoff and the latest time of the decisive evidence from the last event's run |
| HistoryRuns.StepKeepsHistory | backend/app/capability.py:766-1451 | evaluations, log growth, activations and reseeds each keep the history invariant |
| HistoryRuns.EveryRunKeepsHistory | backend/app/capability.py:984-1098 | in every run sequences are 1..n per scope, each event's previous values are the prior event's new ones, and the projection stands at the last event |
| HistoryLaws.DowngradesUseDisjointEvidence | backend/app/capability.py:623-674 | two sustained downgrades of a scope use disjoint evidence, of two or more occurrences each, the later one only evidence later than all that decided the earlier |
| HistoryLaws.DowngradesAreBounded | backend/app/capability.py:623-674 | a scope has at most half as many sustained downgrades as contradicting evidence |
| HistoryLaws.LoweredLevelWaitsForSupport | backend/app/capability.py:489-523 | under one definition with known levels, a level lowered by sustained contradiction is exceeded only after support, active at the rise, later than everything that decided the downgrade |
| HistoryLaws.FallsNameTheirCause | backend/app/capability.py:1037-1061 | a known level falls under its definition only in an event naming one of the three causes |
| HistoryLaws.SustainedLowersOneRank | backend/app/capability.py:664-674 | a sustained contradiction moves a known level to the rank below, to none if the scale lacks that rank, and not from rank 0 |
| HistoryLaws.RecordedConfidenceIsExplained | backend/app/capability.py:838-935 | in every reachable store each event and each cached row has the confidence that the results and the evidence of its run give its level |
| AsOf.ReplayAgreesWithView | backend/app/capability_views.py:382-454 | a historical replay at cutoff c and the pure view at exclusive cutoff c+1 give the same decision and criterion results, whatever order criteria are read in |
| AsOf.TimeTravelIsStable | backend/app/capability_views.py:355-700 | rows and criteria recorded at or after the cutoff never change anything the view returns at it: results, prior state, decision, meaningful time, freshness, review, and the evidence, withdrawal, event and run histories |
| AsOf.HistoryIsGrounded | backend/app/capability_views.py:355-454 | the log of every reachable store satisfies what time-travel stability asks of it |
| ViewLaws.ViewIsDecided | backend/app/capability_views.py:382-454 | the view judges exactly the facts and criteria recorded before the cutoff, reads what the scope's events knew then, and decides as the policy does, explained by its results |
| ViewLaws.CurrencyIsExact | backend/app/capability_views.py:468-504 | stale, aging, current or unknown from the local days since the last fact that refreshes the level and the two limits; a review is due exactly when stale, contradicted or of low confidence |
| ViewLaws.OlderIsNeverMoreCurrent | backend/app/capability_views.py:485-502 | of two views with one level the one with more days elapsed is never the more current |
| ViewLaws.RecordIsExact | backend/app/capability_views.py:519-700 | the record holds exactly the evidence, withdrawals, events and runs recorded before the cutoff, and those behind the prior state |
| Freshness.EvaluationFreshens | backend/app/capability.py:873-983 | after a live scope evaluation the cached evidence set is the active one exactly when the scope was clear: no equal run, or fresh already; and its input is then on record |
| Freshness.EvaluatedIsFreshIff | backend/app/capability.py:766-1111 | after evaluating a competency all its scopes are fresh exactly when all were clear before |
| Freshness.UnaffectedFacts | backend/app/evidence.py:346-371 | rows change the active facts only of competencies linked to what they add or withdraw |
| Freshness.AppendKeepsCoherence | backend/app/evidence.py:346-371 | a command that queues work for every affected competency keeps every scope fresh or outstanding |
| Freshness.TimeKeepsCoherenceIff | backend/app/capability.py:133-183 | time passing keeps the cache coherent exactly when it changes the facts of no idle competency |
| Freshness.FinishKeepsCoherenceIff | backend/app/capability.py:1332-1352 | completing an item after evaluating its competency keeps the cache coherent exactly when the item's competency is inactive, has other work, or all its scopes are clear |
| Freshness.ActivationKeepsCoherence | backend/app/v2_profiles.py:543-602 | activating a definition with queued work keeps the cache coherent |
| Coherence.RestoreIsCoherent | backend/app/import_export.py:3460-3465 | seeding from events and queueing work for every active competency leaves a coherent cache |
| CoherenceLost.ReplacementKeepsCoherenceIff | backend/app/evidence.py:856-889 | a link retracted in favour of a replacement keeps a coherent cache coherent exactly when the replacement stays on the competency, or its competency is inactive or has work anyway, or the evidence is withdrawn |
| Coherence.MoveKeepsCoherenceIff | backend/app/capability.py:1262-1370 | every atomic step of commands, clock, activation, restore and drainers keeps coherence, exactly when it is clear; only finishing an item and the clock can fail to be |
| Coherence.EveryStateIsCoherent | backend/app/capability.py:1262-1370 | in every history of clear steps each active competency is fresh in every scope or has an unfinished capability item, at every point |
| Coherence.CalmHistoriesAreCoherent | backend/app/capability.py:1262-1370 | so it is in every history in which nothing changes a competency's facts between two evaluations of it in one millisecond, and nothing is dated in the future |
| CoherenceLost.OneInstantLosesCoherence | backend/app/capability.py:873-900 | from every reachable state just evaluated, linking, evaluating, unlinking and evaluating in one millisecond reaches a state that is not coherent |
| CoherenceLost.CoherenceCanBeLost | backend/app/capability.py:873-900 | such a state is reachable from an empty store by activation, commands and drains |
| CoherenceLost.FutureEvidenceLosesCoherence | backend/app/schemas.py:492-523 | evidence dated in the future, linked and evaluated at once, leaves its competency stale and idle when the date comes, from every reachable fresh state |
| WorldHistory.CompetencyKeepsHistory | backend/app/capability.py:766-1111 | evaluating all scopes of a competency keeps events, runs and projections in step |
| WorldHistory.EveryWorldKeepsHistory | backend/app/capability.py:1262-1370 | so does every history of commands, clock, activation, restore and drainers under one clock |
| WorldHistory.CalmWorldsAreSound | backend/app/capability.py:1262-1370 | calm histories keep both the history invariant and coherence |
| CapabilityStore.Engine.QueueInvalidations | backend/app/evidence.py:346-371 | the items added are exactly the requests of the distinct subjects of the links |
| CapabilityStore.Engine.CreateEvidence | backend/app/evidence.py:1000-1129 | evidence and links are appended and coherence is kept |
| CapabilityStore.Engine.LinkEvidence | backend/app/evidence.py:1314-1359 | unknown evidence is reported, a used key returns its link or a conflict, an active link that says the same is reported, and these change nothing; otherwise the link is appended; coherence is kept |
| CommandLaws.LinkExistsMeans | backend/app/evidence.py:480-496 | a link exists exactly when one not retracted says the same, column by column, for the same contribution |
| CommandLaws.SamePayloadMeans | backend/app/evidence.py:1314-1359 | a repeated key is answered with its link exactly when the link says the same, column by column |
| CapabilityStore.Engine.RetractEvidence | backend/app/evidence.py:1258-1281 | unknown evidence is reported, a second retraction changes nothing, coherence is kept |
| CapabilityStore.Engine.InvalidateEvidence | backend/app/evidence.py:1285-1310 | unknown evidence is reported, a second invalidation changes nothing, coherence is kept |
| CapabilityStore.Engine.RetractLink | backend/app/evidence.py:1363-1387 | an unknown link is reported, a second link retraction changes nothing, coherence is kept |
| CapabilityStore.Engine.ReplaceLink | backend/app/evidence.py:874-889 | one link is retracted, with a replacement unless its evidence has one; only the retracted link is queued, and coherence is kept exactly when the replacement is served |
| CapabilityStore.Engine.RetractContributionLinks | backend/app/evidence.py:856-889 | every live link of the contribution is retracted in turn, with work for those links only, and coherence is kept exactly when the replacement is served |
| ContributionLinks.ContributionOutcome | backend/app/evidence.py:856-889 | the whole command keeps a coherent cache coherent exactly when the replacement's competency is one retracted from, has work anyway or is inactive, or the evidence given links is withdrawn |
| CommandLaws.ReplacementIsExact | backend/app/evidence.py:856-889 | the rows one retracted link adds: its retraction, and a supporting link of its evidence for the replacement unless there is one |
| CapabilityStore.Engine.SupersedeEvidence | backend/app/evidence.py:1206-1254 | the new evidence is appended, the prior one retracted, and the work of both queued, so coherence is kept |
| CapabilityStore.Engine.RetractSessionEvidence | backend/app/evidence.py:802-814 | every active fact of the session is retracted and its work queued, none is left, and coherence is kept |
| CommandLaws.SessionEvidenceIs | backend/app/evidence.py:787-800 | the session's evidence that is retracted is exactly that which nothing has retracted or invalidated |
| CommandLaws.RetractionsAreAppended | backend/app/evidence.py:802-814 | one retraction row per piece of evidence, in order, and nothing else |
| CommandLaws.SamePayloadsSameFacts | backend/app/capability.py:873-900 | the payloads the cache is compared by are equal exactly when the facts are |
| CapabilityStore.Engine.ReplaceSessionEvidence | backend/app/evidence.py:817-845 | the new fact, if the session qualifies, is appended and every fact active before is retracted, with work for all, so coherence is kept |
| CapabilityStore.Engine.ActivateDefinition | backend/app/v2_profiles.py:543-608 | a later version becomes active with its work queued; unknown, active and earlier definitions and used keys are answered and change nothing; coherence is kept |
| Activations.ActivatedIff | backend/app/v2_profiles.py:543-575 | an activation is carried out exactly for a known definition of the competency, under an unused key, that moves forward; when the other replies are given |
| Activations.ActiveVersionNeverGoesBack | backend/app/v2_profiles.py:543-608 | in every run of activations the active version of a competency never goes back, and grows when the definition changes |
| Activations.UsedKeysStay | backend/app/v2_profiles.py:553-568 | a used key keeps its meaning, and asking again with it changes nothing |
| QueueLaws.DefinitionRequestsMean | backend/app/v2_profiles.py:60-81 | a change of definition asks for pending work of every kind about its competency, once |
| CapabilityStore.Engine.EnqueueFullRebuild | backend/app/capability.py:1373-1394 | exactly the criterion, capability and review requests of every competency with an active definition are queued, and counted |
| CapabilityStore.Engine.Restore | backend/app/import_export.py:3460-3465 | seeding and queueing everything leaves a coherent cache |
| CapabilityStore.CommandCoherence | backend/app/evidence.py:346-371 | a command whose queued links cover the affected competencies keeps coherence |
| CapabilityStore.Engine.DecideScope | backend/app/capability.py:816-962 | assessment, policy and confidence of one scope, from the stored rows, are those the laws are about |
| CapabilityStore.Engine.RecordRun | backend/app/capability.py:963-1098 | run, event and projection rows after recording a run |
| CapabilityStore.Engine.EvaluateOneScope | backend/app/capability.py:804-1098 | an equal run is reused, otherwise the scope's run is recorded |
| CapabilityStore.Engine.Evaluate | backend/app/capability.py:766-1111 | all scopes of the active definition in turn, and nothing for a competency without one |
| CapabilityStore.Engine.RecoverRunning | backend/app/capability.py:1279-1290 | exactly the running items of the three drained kinds become pending |
| CapabilityStore.Engine.Claim | backend/app/capability.py:1323-1339 | only a pending item is taken, with one more attempt |
| CapabilityStore.Engine.Finish | backend/app/capability.py:1342-1352 | the item's competency is evaluated and the item completed |
| CapabilityStore.Engine.Fail | backend/app/capability.py:1353-1363 | the item keeps its request and attempts, is pending exactly while attempts are left and permanently failed otherwise; no other item changes |
| CapabilityStore.Engine.Drain | backend/app/capability.py:1271-1364 | each item pending at the start is attempted once, the rest of the queue is untouched, the result counts successes |
| CapabilityStore.DrainAttemptsOnce | backend/app/capability.py:1306-1364 | what a drain does to any one item, listed or not |
| QueueLaws.DrainIsExact | backend/app/capability.py:1271-1364 | what one drain leaves of every item, by kind, status and attempts: taken items count an attempt and are completed, pending while attempts are left, or failed for good; the rest stay |
| QueueLaws.DrainCounts | backend/app/capability.py:1291-1370 | the number returned is that of the items taken whose evaluation did not fail |
| QueueLaws.ItemCompetencyMeans | backend/app/capability.py:1332-1345 | an item is about the competency it names or the one its criterion belongs to |
| CapabilityStore.Engine.LatestEvents | backend/app/capability.py:1400-1409 | one pass leaves the last event of every scope |
| CapabilityStore.Engine.SeedFromHistory | backend/app/capability.py:1397-1451 | seeding succeeds exactly when every latest event of an active competency has its run, and then caches exactly those scopes |
| CapabilityStore.SeedingIsReseeding | backend/app/capability.py:1397-1451 | what seeding caches is what the reseeding step of the laws caches |
| CapabilityStore.LatestMapIsLatest | backend/app/capability.py:1400-1409 | the dictionary holds each scope's event of highest sequence |
| HistoryValidator.ValidateEvents | backend/app/domain_integrity.py:6613-6666 | the loop with per-scope counters accepts exactly when each scope's own events are numbered 1..n and each has a run of its scope and definition with its level, status, confidence and decisive evidence |
| HistoryValidator.ValidateStates | backend/app/domain_integrity.py:6667-6689 | states are accepted exactly when each has a run of its scope and definition with its evidence, level, status, confidence and confidence facts |
| HistoryValidator.AcceptedMeansNumbered | backend/app/domain_integrity.py:6613-6666 | counting over the whole table accepts exactly what the scopes' own logs satisfy |
| HistoryValidator.EngineHistoriesAreAccepted | backend/app/domain_integrity.py:6613-6689 | events and states of every history the engine keeps are accepted |
| DrainProtocol.StepKeepsExclusive | backend/app/capability.py:1271-1364 | every step keeps held items running and each with one holder, if recoveries wait for idle drainers |
| DrainProtocol.RecoveryIsSafeIffNobodyHolds | backend/app/capability.py:1279-1290 | a recovery keeps that invariant exactly when no drainer holds an item |
| DrainProtocol.NoItemHasTwoHolders | backend/app/capability.py:1323-1339 | in every interleaving two drainers never hold one item |
| DrainProtocol.FinalIsAbsorbing | backend/app/capability.py:1342-1363 | in every interleaving a completed or permanently failed item never changes again |
| DrainProtocol.RecoveryUnderAHolder | backend/app/capability.py:1279-1290 | from any state with a holder, a recovery lets a second drainer hold the item and a completed item become pending |
| DrainProtocol.OneAttemptPerCall | backend/app/capability.py:1291-1306 | one drain call claims an item at most once, even across recoveries |
| DrainProtocol.PendingItemsHaveAttemptsLeft | backend/app/capability.py:1353-1358 | without recovery no item exceeds its attempts and a pending one has fewer |
| DrainProtocol.RecoveryKeepsBudgetIff | backend/app/capability.py:1279-1290 | a recovery keeps that exactly when no running item is on its last attempt |
| DrainProtocol.ClaimsAreCounted | backend/app/capability.py:1323-1339 | the attempt counter of an item equals the number of times it was claimed in the run |
| DrainProtocol.ClaimsAreBounded | backend/app/capability.py:1271-1364 | without recovery an item is claimed at most the allowed number of times |
| Supersession.CommandKeepsSoundIff | backend/app/evidence.py:665-845 | a lifecycle command keeps unforked chains, matching retractions and one active fact per session exactly when the session guards hold |
| Supersession.ReusedRoleBreaksTheChain | backend/app/evidence.py:817-845 | replacing under a used role ends a fact in favour of one that does not supersede it |
| Supersession.SessionFactKeepsOneActiveIff | backend/app/evidence.py:665-755 | a new session fact keeps one active fact per session exactly when the session has none |
| Supersession.SupersededIsEnded | backend/app/evidence.py:1206-1254 | whatever is superseded is retracted in favour of its successor |
| Supersession.EveryBookIsSound | backend/app/evidence.py:665-1310 | every run of orderly commands keeps the lifecycle invariant, with at most one active fact per session |
| LifecycleLaws.CommandIsExact | backend/app/evidence.py:665-1310 | the rows every lifecycle command adds, ends and invalidates, from the rows before |
| LifecycleLaws.CreationReply | backend/app/evidence.py:1000-1129 | a new source is stored, a known one answered with its fact if the content is the same, and refused otherwise |
| LifecycleLaws.SupersessionReply | backend/app/evidence.py:1206-1254 | when a supersession is not found, already done by another, answered, or carried out |
| Supersession.EvidenceBook.CreateNative | backend/app/evidence.py:1000-1129 | a repeated key returns its fact or a conflict and adds nothing |
| Supersession.EvidenceBook.SupersedeEvidence | backend/app/evidence.py:1206-1254 | replies and rows for unknown, ended, replayed, conflicting and fresh supersessions |
| Supersession.EvidenceBook.RetractEvidence | backend/app/evidence.py:1258-1281 | one retraction at most, none for unknown evidence |
| Supersession.EvidenceBook.InvalidateEvidence | backend/app/evidence.py:1285-1310 | one invalidation at most, none for unknown evidence |
| Supersession.EvidenceBook.CreateSessionEvidence | backend/app/evidence.py:665-755 | nothing for a session that does not qualify, the role's fact if there is one, otherwise a new fact |
| Supersession.EvidenceBook.RetractSessionEvidence | backend/app/evidence.py:802-814 | every active fact of the session gets one retraction |
| Supersession.EvidenceBook.ReplaceSessionEvidence | backend/app/evidence.py:817-845 | the new fact supersedes the newest active one and every active one is retracted in its favour |
| SupersessionValidator.Walk | backend/app/domain_integrity.py:2288-2299 | the walk with a seen set succeeds exactly when the chain ends |
| SupersessionValidator.RepeatsForever | backend/app/domain_integrity.py:2288-2299 | a chain that meets a fact twice never ends |
| SupersessionValidator.ForksAreShared | backend/app/domain_integrity.py:2433-2442 | a parent with two children in the table is exactly a fork |
| SupersessionValidator.ValidateLifecycle | backend/app/domain_integrity.py:2288-2468 | accepted exactly when all chains end, none forks, replacements supersede, and every link has its matching retraction |
| SupersessionValidator.ChainsAreLinear | backend/app/domain_integrity.py:2433-2442 | facts that reach the same fact lie on one chain |
| SupersessionValidator.OneUnretractedPerChain | backend/app/domain_integrity.py:2433-2468 | an accepted chain has at most one fact that is not retracted |
| SupersessionValidator.SoundBooksAreAccepted | backend/app/domain_integrity.py:2288-2468 | the validator accepts every book the commands leave |
| SessionRows.SessionRow.Pause | backend/app/sessions.py:241-254 | state, worked time and reply of pausing |
| SessionRows.SessionRow.Resume | backend/app/sessions.py:258-270 | state and reply of resuming |
| SessionRows.SessionRow.Complete | backend/app/sessions.py:273-313 | the finalised row, or the refusal |
| SessionRows.SessionRow.Cancel | backend/app/sessions.py:273-331 | the cancelled row, or the refusal |
| SessionRows.SessionRow.Correct | backend/app/sessions.py:374-484 | the corrected row with its recorded before and after values, or the refusal |
| SessionRows.SessionRow.Delete | backend/app/sessions.py:488-530 | the tombstoned row with its correction, or the refusal |
| SessionLaws.DurationIsTimeRun | backend/app/sessions.py:241-313 | the duration a session is completed or cancelled with is the sum of the stretches of its life in which it ran |
| SessionLaws.FinishingIsExact | backend/app/sessions.py:273-331 | exactly an open session finishes, and what every column then holds |
| SessionLaws.PausingIsExact | backend/app/sessions.py:241-270 | exactly a running session pauses and a paused one resumes, and no other column changes |
| SessionLaws.CorrectionIsExact | backend/app/sessions.py:374-484 | when a correction is carried out, and that every column then holds what was submitted, what follows from it, or what it held |
| SessionLaws.DeletionIsExact | backend/app/sessions.py:488-530 | exactly a finished row that is not deleted is, and only its deletion columns change |
| SessionLaws.ViewShowsColumns | backend/app/session_views.py:53-75 | what is shown is the recovered columns of a row that ended before the cutoff |
| SessionReplay.SessionActualityAsOf | backend/app/session_views.py:25-75 | the undo loop computes the recovered state, and nothing for an unknown session |
| SessionCorrections.LatestLeads | backend/app/session_views.py:40-47 | ordering by time and id puts the correction made last first |
| SessionCorrections.OrdersAgreeIff | backend/app/session_views.py:40-52 | undoing by time and id leaves in a column what undoing the edits does exactly when the first and the least correction of it found the same value |
| SessionCorrections.ChainsAgree | backend/app/domain_integrity.py:3155-3182 | corrections that chain both by time and id and in the order they were made leave the same value, whatever the ids |
| SessionReplay.LeastIsRecovered | backend/app/session_views.py:40-52 | the value recovered in a column is what the least correction since the cutoff found there |
| SessionReplay.LaterStepsAreInvisible | backend/app/session_views.py:25-75 | a step at the cutoff or later does not change what the cutoff sees, unless it is a correction that overtakes one of its millisecond, which is exactly when what is recovered changes |
| SessionReplay.EarlierIsForwardHistory | backend/app/session_views.py:25-75 | undoing the edits in the order they were made gives what the row showed just before the cutoff, in every life of a session |
| SessionReplay.ViewIsForwardHistoryIff | backend/app/session_views.py:25-75 | in every life the final row read at a cutoff gives that, exactly when the first and the least edit since the cutoff agree in every column shown |
| SessionReplay.UndoReplayIsForwardHistory | backend/app/session_views.py:25-75 | in every life, if edits of one millisecond that share a column have ids in their order, reading the final row at a cutoff gives what the row showed after the steps made before it |
| SessionReplay.ShownIff | backend/app/session_views.py:31-65 | however it is edited later, the row shows something at a cutoff exactly when it existed before, no step before the cutoff deleted it, and what is recovered is finalised; if the view is in order, exactly when those steps left it finalised |
| SessionReplay.CancelledIsNeverShown | backend/app/session_views.py:53-65 | a cancelled session shows nothing at any cutoff, whatever is corrected |
| SessionReplay.SameInstantEdits | backend/app/session_views.py:46 | if two edits of one millisecond are all that touched a column since the cutoff, the value before them is recovered exactly when their ids are in their order |
| SessionChecks.SessionAt | backend/app/domain_integrity.py:3155-3182 | the checking loop computes the snapshot, or rejects |
| SessionChecks.MatchingMeans | backend/app/domain_integrity.py:3155-3182 | a correction fits when every value it recorded is in its column, a missing column counting as null |
| SessionChecks.AcceptedIffChained | backend/app/domain_integrity.py:3155-3182 | it accepts exactly when every correction fits what undoing the later ones leaves |
| SessionChecks.AcceptedHistoriesReplay | backend/app/domain_integrity.py:3155-3182 | redoing the undone corrections of an accepted history rebuilds the current row |
| SessionChecks.AcceptedIffFitting | backend/app/domain_integrity.py:3155-3182 | a life is accepted exactly when every correction left, in each of its columns, what the next newer one by time and id found, or what is there now |
| SessionChecks.WritersAreAccepted | backend/app/domain_integrity.py:3155-3182 | every life in which edits of one millisecond that share a column have ids in their order is accepted at every cutoff |
| SessionChecks.ReversedPairIsAcceptedIff | backend/app/domain_integrity.py:3155-3182 | with one neighbouring pair of a millisecond in the wrong order, a life is accepted exactly when the two change nothing in the columns they share |
| SessionChecks.ReversedEditsAreRejected | backend/app/domain_integrity.py:3155-3182 | two edits of one column in one millisecond with the ids the other way round make a life that is rejected at every cutoff and of which the view shows the value in between |
| SessionChecks.CheckedReplayIsForwardHistory | backend/app/domain_integrity.py:3155-3182 | in every life, whatever the ids, the reader rejects or finds the whole row of the finalised session just before the cutoff |
| SessionChecks.AcceptedViewsAreRight | backend/app/domain_integrity.py:3155-3182 | of every life the checking reader accepts, the view is right at every cutoff |
| SessionChecks.ModesAgreeWithTheView | backend/app/domain_integrity.py:6151-6186 | a session adds its mode exactly when the view shows it with the activity and in time, if its duration counts |
| SessionChecks.ProjectSessionAssistanceModes | backend/app/domain_integrity.py:6151-6186 | the loop collects one mode per session that counts |
| CycleCheck.Search.Visit | backend/app/domain.py:92-103 | yes implies a cycle; no leaves the visiting set as it was and the node laid out after what it needs |
| CycleCheck.HasRequiredDependencyCycle | backend/app/domain.py:88-105 | terminates on every graph, answers yes exactly when there is a directed cycle, and no comes with a layout of all nodes |
| CycleCheck.LayoutsHaveNoCycle | backend/app/domain.py:88-105 | a graph that can be laid out has no cycle |
| CycleCheck.ValidateDependencies | backend/app/domain_integrity.py:5570-5595 | a version is accepted exactly when its dependencies stay inside it and its tasks have an order of work |
| TodayReplay.ReplaySuggestion | backend/app/domain_integrity.py:4230-4330 | accepted exactly when every interaction fits the status and time before it and the stored state is the rebuilt one |
| TodayReplay.TransitionsMean | backend/app/today/service.py:53-61 | an open suggestion can be viewed, accepted and started in that order, replaced or expired at any time, skipped until started and finished once started; a closed one stays |
| TodayReplay.KeptIsPath | backend/app/domain_integrity.py:4230-4330 | without retracted interactions the rest chain from suggested to the current status |
| TodayReplay.AcceptedHistoryIsShortPath | backend/app/domain_integrity.py:3960-3967 | that path has at most four interactions and only its last can be terminal |
| TodayReplay.CommandValidatesIff | backend/app/today/service.py:256-326 | a command keeps the thread acceptable exactly when it is not a restart past the expiry |
| TodayReplay.WritersAreAcceptedIff | backend/app/today/service.py:804-890 | a thread the writers produced is accepted exactly when no restart was carried out at or after the expiry |
| TodayReplay.LateRestartsHappen | backend/app/today/service.py:804-890 | a start before the expiry and a restart after it are a history the writers produce and the validator rejects |
| TodayReplay.RebuildRestoresState | backend/app/today/service.py:1282-1333 | rebuilding from rows gives the live current state in every run |
| TodayReplay.SuggestionRows.AppendInteraction | backend/app/today/service.py:256-326 | row and state after an allowed transition, refusal otherwise |
| TodayReplay.SuggestionRows.CorrectInteraction | backend/app/today/service.py:1181-1248 | only the latest interaction is retracted, once, and the status it found returns |
| TodayReplay.SuggestionRows.RecordInteraction | backend/app/today/service.py:544-590 | recorded exactly for viewed, accepted or skipped, before the expiry, when the status allows it; one row more, or nothing |
| TodayReplay.SuggestionRows.RestartLegacyAssessment | backend/app/today/service.py:804-890 | the start is retracted and made again, at any time, exactly when it is an unbound start whose session is over |
| TodayReplay.SuggestionRows.ExpireDueSuggestion | backend/app/today/service.py:1252-1279 | a due suggestion that is not terminal expires; one row more, or nothing |
| TodayReplay.SuggestionRows.RebuildCurrentState | backend/app/today/service.py:1282-1333 | whatever was stored, the validator then accepts the thread exactly when its rows fit |
| TreeDigest.FeedTree | scripts/frontend-artifact.py:83-94 | the updates concatenate to the framed stream of the files |
| TreeDigest.ParseStream | scripts/frontend-artifact.py:83-94 | a parser recovers the files from the stream, for any contents and paths without NUL |
| TreeDigest.StreamsAreDecodable | scripts/frontend-artifact.py:83-94 | the parser accepts exactly the streams of such lists, each from one list |
| TreeDigest.SameStreamSameTree | scripts/frontend-artifact.py:64-94 | two sorted listings feed the same bytes exactly when they hold the same files with the same contents |
| TreeDigest.NulsCollide | scripts/frontend-artifact.py:83-94 | with a NUL in a path one file can feed the bytes of two |
| RateLimiter.Limiter.Check | backend/app/security.py:71-79 | the popleft loop leaves the events younger than the window that head the deque, and passes when they are fewer than the limit |
| RateLimiter.Limiter.Add | backend/app/security.py:81-82 | the event counts in every window that ends now, after those counted before, and in no other bucket |
| RateLimiter.Limiter.Clear | backend/app/security.py:84-85 | the bucket holds nothing and every other bucket what it held |
| RateLimiter.ChecksCountRecentEvents | backend/app/security.py:71-79 | after any check in any run the deque holds exactly the bucket's events younger than the window |
| RateLimiter.BudgetHoldsIff | backend/app/security.py:67-85 | no window ever holds more events than the limit exactly when every add finds room in the window that ends with it, or windows have no length |
| RateLimiter.NoWindowExceedsItsBudget | backend/app/security.py:67-85 | if every add follows a passing check, no window anywhere in the run holds more events than the limit |
| RateLimiter.ChecksDoNotReserve | backend/app/security.py:71-82 | two checks before two adds exceed a limit of one |

## Left out

- The stored review state and policy versions: `_update_review_state` writes rows that no capability decision reads. The freshness the view of a cutoff returns is in `AsOf`, with the local calendar and the thresholds as parameters.
- Downstream queue items (roadmap, analysis) that evaluations and Today commands add, and the analysis drain.
- Content hashes: payload values are compared instead, so a hash collision is not a possibility here.
- Source ids, target policy versions and the unique constraint of queue items; requests are kept as separate items.
- Drain order: items are attempted in queue order, in `DrainProtocol` in any order; no property depends on it.
- Rule documents with an unsupported rule name, malformed JSON and missing rows behind foreign keys.
- Identifiers are natural numbers used for equality and order, a run's identifier is its position, and evidence occurrence keys are structured values instead of strings.
- Validation of links against definitions: it refuses some commands and changes no others.
- Clocks and randomness are parameters: timestamps do not go back where a lemma says so, and new identifiers are fresh.
- Redaction, titles, descriptions and serializers.
- The conditions on assessments, relations and sessions that can refuse a Today command, and its idempotency keys; a command is modelled as carried out or refused by status, time and lineage, and a legacy restart also by whether the start is bound and its session over.
- Sorting of the collected assistance modes: they are compared as a multiset.
- Python's recursion limit in the cycle check: a very deep graph raises an error there.
- File collection, hashing and the manifest around the tree digest; the SHA-256 of a stream is not modelled.
- HistoryValidator.ValidateStates: does not compare the scale and the policy versions of a state with those of its run, because runs and states of the model carry neither; the scale follows from the definition, which is compared.
- TodayReplay.ReplaySuggestion: does not model the shape of the stored reason and the payload hashes, which are functions of columns the model has and of feedback it does not.
- CapabilityStore.Engine.SupersedeEvidence: starts from a supersession that is carried out; the replies for unknown, ended, replayed and conflicting ones are in Supersession.EvidenceBook.SupersedeEvidence.
- CapabilityStore.Engine.ReplaceSessionEvidence: whether the session still qualifies, and its new fact, are parameters; Supersession.EvidenceBook.ReplaceSessionEvidence has them.
- CapabilityStore.Engine.CreateEvidence: evidence creation in the engine starts from validated rows; keys, replays and conflicts are in Supersession.EvidenceBook.CreateNative.
- SessionReplay.ViewIsForwardHistoryIff: columns outside the six shown ones are covered by SessionChecks.CheckedReplayIsForwardHistory, and `updated_at`, which no correction records, by neither.

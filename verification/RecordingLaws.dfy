/**
 What evaluating a scope reads and records, column by column: the prior state, the run, the event exactly when
 something changed and with its cause, and the cached row.
 */
module RecordingLaws {
  import opened Base
  import opened Model
  import opened ActiveFacts
  import opened Criteria
  import opened Meaning
  import opened Levels
  import opened Downgrade
  import opened Evaluation
  import opened DecisionLaws
  import opened DowngradeCauses
  import opened History
  import opened HistoryKept

  // ---- What is recorded ---------------------------------------------------------------------------

  /** The scope has no event yet, or its last event and that event's run say something else than the run. */
  ghost predicate Differs(runs: seq<Run>, es: seq<Event>, run: Run) {
    es != [] ==>
      var last := es[|es| - 1];
      || last.definition != run.definition || last.newLevel != run.decision.level
      || last.newStatus != run.decision.status || last.newConfidence != run.decision.confidence
      || (last.run < |runs| && runs[last.run].decision.confidenceFacts != run.decision.confidenceFacts)
  }

  /** The next event of a scope, made for the run that gets the number `id`. */
  ghost predicate IsNextEvent(es: seq<Event>, run: Run, id: nat, e: Event) {
    && FollowsOn(es, e)
    && e.key == run.key && e.definition == run.definition && e.run == id && e.createdAt == run.generatedAt
    && e.newLevel == run.decision.level && e.newStatus == run.decision.status
    && e.newConfidence == run.decision.confidence && e.decisive == run.decision.decisive
    && (forall c :: e.cause == Downgraded(c) <==> run.decision.cause == Some(c))
    && (e.cause == DefinitionChanged <==>
         run.decision.cause.None? && es != [] && es[|es| - 1].definition != run.definition)
  }

  /** The cached row of a scope repeats the run and counts the scope's events. */
  ghost predicate IsCachedRow(p: Projection, run: Run, id: nat, meaningful: Option<int>, events: nat) {
    && p.definition == run.definition && p.level == run.decision.level && p.status == run.decision.status
    && p.confidence == run.decision.confidence && p.confidenceFacts == run.decision.confidenceFacts
    && p.run == id && p.evidence == run.evidence && p.lastEvaluated == run.cutoff
    && p.lastMeaningful == meaningful && p.version == events
  }

  /** `t` is `s` after the run has been recorded for its scope. */
  ghost predicate Recorded(s: Store, t: Store, run: Run, meaningful: Option<int>) {
    var es := EventsOf(s.events, run.key);
    && t.catalog == s.catalog && t.active == s.active && t.log == s.log && t.runs == s.runs + [run]
    && (if Differs(s.runs, es, run) then
          |t.events| == |s.events| + 1 && t.events[..|s.events|] == s.events
          && IsNextEvent(es, run, |s.runs|, t.events[|s.events|])
        else t.events == s.events)
    && run.key in t.states
    && IsCachedRow(t.states[run.key], run, |s.runs|, meaningful, |EventsOf(t.events, run.key)|)
    && t.states == s.states[run.key := t.states[run.key]]
  }

  /**
   Without the invariant: a run is a change against the cached row, or failing that the latest event, or if there is
   neither.
   */
  lemma {:induction false} ChangeIsExact(previous: Option<Projection>, latest: Option<Event>, run: Run)
    ensures Changed(previous, latest, run) <==>
      match (previous, latest)
      case (Some(p), _) =>
        || p.definition != run.definition || p.level != run.decision.level || p.status != run.decision.status
        || p.confidence != run.decision.confidence || p.confidenceFacts != run.decision.confidenceFacts
      case (None, Some(e)) =>
        || e.definition != run.definition || e.newLevel != run.decision.level || e.newStatus != run.decision.status
        || e.newConfidence != run.decision.confidence || e.decisive != run.decision.decisive
      case (None, None) => true
  {}

  /** In a store with the history invariant, what changed is seen against the scope's last event. */
  lemma {:induction false} ChangeMeans(s: Store, run: Run)
    requires HistoryOk(s)
    ensures Changed(Cached(s, run.key), LatestEvent(s.events, run.key), run) <==>
      Differs(s.runs, EventsOf(s.events, run.key), run)
  {
    assert ScopeOk(s, run.key);
    BeforeIsLast(s, run.key);
  }

  lemma {:induction false} NextEventMeans(s: Store, run: Run)
    requires HistoryOk(s)
    ensures IsNextEvent(EventsOf(s.events, run.key), run, |s.runs|,
      EventFor(Cached(s, run.key), LatestEvent(s.events, run.key), run, |s.runs|))
  {
    assert ScopeOk(s, run.key);
    BeforeIsLast(s, run.key);
  }

  /** Recording a run of a live evaluation, exactly. */
  lemma {:induction false} RecordingIsExact(s: Store, run: Run, meaningful: Option<int>)
    requires HistoryOk(s)
    ensures Recorded(s, Record(s, run, false, meaningful), run, meaningful)
  {
    BeforeIsLast(s, run.key);
    ChangeMeans(s, run);
    NextEventMeans(s, run);
    var e := EventFor(Cached(s, run.key), LatestEvent(s.events, run.key), run, |s.runs|);
    EventsOfAppend(s.events, e, run.key);
  }

  /** What a run keeps of a fact. */
  ghost predicate Keeps(p: Payload, f: Fact) {
    && p.evidenceId == f.evidence.id && p.linkId == f.link.id && p.criterion == f.link.criterion
    && p.effect == f.link.effect && p.strength == f.evidence.strength && p.independence == f.evidence.independence
    && p.sourceConfidence == f.evidence.sourceConfidence && p.occurredAt == f.evidence.occurredAt
    && p.occurrence == OccurrenceOf(f.evidence) && p.context == ContextOf(f.evidence)
  }

  ghost predicate KeepsAll(seen: seq<Payload>, facts: seq<Fact>) {
    |seen| == |facts| && forall i :: 0 <= i < |seen| ==> Keeps(seen[i], facts[i])
  }

  /** The run of an evaluation, before its decision. */
  ghost predicate IsRunOf(s: Store, d: Definition, key: Key, cutoff: int, stamp: int, r: Run) {
    && r.key == key && r.definition == d.id && r.cutoff == cutoff && r.generatedAt == stamp
    && KeepsAll(r.evidence, ScopeFacts(s.log, key, cutoff))
    && |r.results| == |ScopeCriteria(d, key.dimension)|
    && forall i :: 0 <= i < |r.results| ==>
         r.results[i] == EvaluateCriterion(ScopeCriteria(d, key.dimension)[i], ScopeFacts(s.log, key, cutoff))
  }

  /** The same scope, definition, instant, evidence and criterion results. */
  ghost predicate Repeats(r: Run, q: Run) {
    r.key == q.key && r.definition == q.definition && r.cutoff == q.cutoff && r.evidence == q.evidence
      && r.results == q.results
  }

  /**
   Evaluating a scope changes nothing when some run repeats; otherwise a historical replay records its run alone, and a
   live evaluation its run, its event if something changed, and its row.
   */
  lemma {:induction false} EvaluationIsExact(
      s: Store, d: Definition, dimension: Option<Id>, cutoff: int, stamp: int)
    requires HistoryOk(s) && Evaluable(s, d, Key(d.competency, dimension))
    ensures var key, t := Key(d.competency, dimension), EvaluateScope(s, d, dimension, cutoff, stamp);
      var r := RunFor(s, d, key, cutoff, stamp);
      && IsRunOf(s, d, key, cutoff, stamp, r)
      && (if exists q :: q in s.runs && Repeats(q, r) then t == s
          else if key in s.states && cutoff < s.states[key].lastEvaluated then t == s.(runs := s.runs + [r])
          else exists meaningful ::
            && Recorded(s, t, r, meaningful)
            && IsRefreshed(ScopeFacts(s.log, key, cutoff), ScopeCriteria(d, dimension),
                 ScopeOutcome(s, d, key, cutoff).selected, meaningful))
  {
    var key := Key(d.competency, dimension);
    var r := RunFor(s, d, key, cutoff, stamp);
    RecordingIsExact(s, r, LastMeaningful(s, d, key, cutoff));
    MeaningfulIsLatest(
      ScopeFacts(s.log, key, cutoff), ScopeCriteria(d, dimension), ScopeOutcome(s, d, key, cutoff).selected);
    assert AlreadyRun(s.runs, r) <==> exists q :: q in s.runs && Repeats(q, r) by {
      forall q ensures SameInput(q, r) <==> Repeats(q, r) {}
    }
  }

  // ---- What the policy is told of the state before ------------------------------------------------

  /** An event of the scope that was known by the cutoff, and so was its run. */
  ghost predicate Known(s: Store, key: Key, cutoff: int, e: Event) {
    && e in s.events && e.key == key && e.createdAt <= cutoff
    && e.run < |s.runs| && s.runs[e.run].cutoff <= cutoff && s.runs[e.run].generatedAt <= cutoff
  }

  /** A known event whose run has the latest cutoff, and among those the highest number. */
  ghost predicate LastKnown(s: Store, key: Key, cutoff: int, e: Event) {
    && Known(s, key, cutoff, e)
    && forall f :: Known(s, key, cutoff, f) ==>
      && s.runs[f.run].cutoff <= s.runs[e.run].cutoff
      && (s.runs[f.run].cutoff == s.runs[e.run].cutoff ==> f.sequence <= e.sequence)
  }

  ghost predicate NoneKnown(s: Store, key: Key, cutoff: int) { forall e :: !Known(s, key, cutoff, e) }

  /** The state an event left, dated by its run's decisive evidence. */
  ghost predicate LeftBy(s: Store, key: Key, e: Event, p: Prior) {
    && p.key == key && p.definition == e.definition && p.level == e.newLevel && p.run == e.run
    && e.run < |s.runs| && IsLatest(s.log, s.runs[e.run].decision.decisive, p.lastMeaningful)
  }

  lemma {:induction false} PriorStateIsExact(s: Store, key: Key, cutoff: int)
    ensures var p := PriorStateAt(s, key, cutoff);
      && (p.None? <==> NoneKnown(s, key, cutoff))
      && (p.Some? ==> exists e :: LastKnown(s, key, cutoff, e) && LeftBy(s, key, e, p.value))
  {
    var r := LatestKnown(s.events, s.runs, key, cutoff);
    forall e ensures Known(s, key, cutoff, e) <==> e in s.events && KnownBy(e, s.runs, key, cutoff) {}
    if r.Some? {
      forall f | Known(s, key, cutoff, f) ensures !Precedes(f, r.value, s.runs) {}
      assert LastKnown(s, key, cutoff, r.value);
    }
  }

  /** The policy reads the cached row, or for an earlier cutoff what the events knew then; under its definition only. */
  ghost predicate ReadsPrior(s: Store, key: Key, definition: Id, cutoff: int, p: Option<Prior>) {
    if key !in s.states then p.None?
    else if s.states[key].lastEvaluated <= cutoff then
      var q := s.states[key];
      && (p.Some? <==> q.definition == definition)
      && (p.Some? ==> p.value == Prior(key, definition, q.level, q.run, q.lastMeaningful))
    else
      && (p.Some? ==> p.value.definition == definition)
      && (p.Some? ==> exists e :: LastKnown(s, key, cutoff, e) && LeftBy(s, key, e, p.value))
      && (p.None? && !NoneKnown(s, key, cutoff) ==>
           exists e :: LastKnown(s, key, cutoff, e) && e.definition != definition)
  }

  lemma {:induction false} PolicyPriorIsExact(s: Store, key: Key, definition: Id, cutoff: int)
    ensures ReadsPrior(s, key, definition, cutoff, PolicyPrior(s, key, definition, cutoff))
  {
    PriorStateIsExact(s, key, cutoff);
  }

  // ---- What the run decides -----------------------------------------------------------------------

  ghost predicate IsCandidate(a: Assessed, candidate: Option<Level>) {
    && (candidate.Some? ==> candidate.value in a.levels && Earned(a, candidate.value))
    && forall l :: l in a.levels && Earned(a, l) ==> candidate.Some? && l.rank <= candidate.value.rank
  }

  /** The decision shows the outcome, and its decisive evidence is that of the results and that of the outcome. */
  ghost predicate Shows(a: Assessed, d: Decision, o: Outcome) {
    && d.level == (if o.selected == None then None else Some(o.selected.value.id))
    && d.cause == o.cause && d.confidenceFacts.retained == o.retained
    && (forall id :: id in d.decisive <==> Decides(a.levels, a.results, d.level, id) || id in o.evidence)
  }

  /**
   The decision of a run is that of the policy for the highest level earned and the state before, both read from rows,
   and explained by the results.
   */
  lemma {:induction false} RunIsDecided(s: Store, d: Definition, key: Key, cutoff: int, stamp: int)
    returns (prior: Option<Prior>, candidate: Option<Level>, o: Outcome)
    requires Evaluable(s, d, key)
    ensures ReadsPrior(s, key, d.id, cutoff, prior)
    ensures var r := RunFor(s, d, key, cutoff, stamp);
      var a := Assessed(d.scale, d.levels, r.results, ScopeFacts(s.log, key, cutoff));
      && IsCandidate(a, candidate)
      && PolicyDecides(s.log, s.runs, s.events, prior, candidate, a, cutoff, o)
      && Shows(a, r.decision, o) && Explained(d.levels, r.results, r.evidence, r.decision)
  {
    var a := AssessScope(s, d, key, cutoff);
    AssessmentIsValid(s, d, key, cutoff);
    AssessmentKnowsLevels(s, d, key, cutoff);
    prior, candidate, o := PolicyPrior(s, key, d.id, cutoff), a.Candidate(), ScopeOutcome(s, d, key, cutoff);
    PolicyPriorIsExact(s, key, d.id, cutoff);
    CandidateIsHighestPassed(a);
    CausesAreExact(s.log, s.runs, s.events, prior, candidate, a, cutoff);
    OutcomeFits(s, d, key, cutoff);
    DecisionsAreExplained(a, o);
  }
}

/** Evaluating a scope keeps the history invariant. */
module HistoryKept {
  import opened Base
  import opened Model
  import opened ActiveFacts
  import opened Criteria
  import opened Levels
  import opened Downgrade
  import opened Evaluation
  import opened DecisionLaws
  import opened History

  // ---- The assessment is well formed -----------------------------------------------------------------

  ghost predicate UniqueCriteria(cs: seq<Criterion>) {
    forall i, j :: 0 <= i < j < |cs| ==> cs[i].id != cs[j].id
  }

  lemma {:induction false} FilterKeepsUnique(cs: seq<Criterion>, p: Criterion -> bool)
    requires UniqueCriteria(cs)
    ensures UniqueCriteria(Filter(cs, p))
  {
    if cs != [] {
      var init, last := cs[..|cs| - 1], cs[|cs| - 1];
      FilterKeepsUnique(init, p);
      forall c | c in Filter(init, p) ensures c.id != last.id {
        var i :| 0 <= i < |init| && init[i] == c;
        assert cs[i] == c;
      }
    }
  }

  lemma {:induction false} AssessmentIsValid(s: Store, d: Definition, key: Key, cutoff: int)
    requires Evaluable(s, d, key)
    ensures AssessScope(s, d, key, cutoff).Valid()
    ensures ConsistentFacts(AssessScope(s, d, key, cutoff).facts)
  {
    AssessmentKnowsLevels(s, d, key, cutoff);
    FilterKeepsUnique(d.criteria, (c: Criterion) => c.dimension == key.dimension);
  }

  lemma {:induction false} ScopeFactsInLog(s: Store, key: Key, cutoff: int, upTo: int)
    requires cutoff <= upTo
    ensures forall f :: f in ScopeFacts(s.log, key, cutoff) ==> InLog(s.log, f, key, upTo)
  {}

  // ---- The outcome -----------------------------------------------------------------------------------

  lemma {:induction false} OutcomeWithoutPrior(s: Store, d: Definition, key: Key, cutoff: int)
    requires Evaluable(s, d, key)
    requires var p := PolicyPrior(s, key, d.id, cutoff); p.None? || p.value.level.None?
    ensures var o := ScopeOutcome(s, d, key, cutoff);
      o.cause.None? && o.evidence == {} && !o.retained && (o.selected.Some? ==> o.selected.value in d.levels)
  {
    AssessmentIsValid(s, d, key, cutoff);
    CandidateIsHighestPassed(AssessScope(s, d, key, cutoff));
  }

  lemma {:induction false} OutcomeWithPrior(s: Store, d: Definition, key: Key, cutoff: int)
    requires Evaluable(s, d, key)
    requires var p := PolicyPrior(s, key, d.id, cutoff); p.Some? && p.value.level.Some?
    ensures PolicyPrior(s, key, d.id, cutoff).value.level.value in LevelIds(d.levels)
    ensures var o, a := ScopeOutcome(s, d, key, cutoff), AssessScope(s, d, key, cutoff);
      && a.KnownLevels()
      && PolicyPromise(ReadHistory(s.log, s.runs, s.events, PolicyPrior(s, key, d.id, cutoff).value, cutoff),
           LevelById(d.levels, PolicyPrior(s, key, d.id, cutoff).value.level.value), a.Candidate(), a, o)
      && (o.selected.Some? ==> o.selected.value in d.levels)
  {
    AssessmentIsValid(s, d, key, cutoff);
    AssessmentKnowsLevels(s, d, key, cutoff);
    var a := AssessScope(s, d, key, cutoff);
    CandidateIsHighestPassed(a);
    PolicyKeepsItsPromise(s.log, s.runs, s.events, PolicyPrior(s, key, d.id, cutoff).value, a.Candidate(), a, cutoff);
  }

  lemma {:induction false} OutcomeLevel(s: Store, d: Definition, key: Key, cutoff: int)
    requires Evaluable(s, d, key)
    ensures var o := ScopeOutcome(s, d, key, cutoff);
      && (o.selected.Some? ==> o.selected.value in d.levels)
      && (o.retained ==> o.selected.Some? && o.cause.None?)
  {
    var p := PolicyPrior(s, key, d.id, cutoff);
    if p.None? || p.value.level.None? {
      OutcomeWithoutPrior(s, d, key, cutoff);
    } else {
      OutcomeWithPrior(s, d, key, cutoff);
    }
  }

  lemma {:induction false} OutcomeFits(s: Store, d: Definition, key: Key, cutoff: int)
    requires Evaluable(s, d, key)
    ensures Fitting(AssessScope(s, d, key, cutoff), ScopeOutcome(s, d, key, cutoff))
  {
    AssessmentIsValid(s, d, key, cutoff);
    AssessmentKnowsLevels(s, d, key, cutoff);
    PolicyFits(s.log, s.runs, s.events, PolicyPrior(s, key, d.id, cutoff), AssessScope(s, d, key, cutoff), cutoff);
  }

  ghost predicate RunsGrounded(s: Store) { forall r :: r in s.runs ==> Grounded(s.log, r.decision.decisive) }

  lemma {:induction false} WithdrawnIsGrounded(s: Store, run: nat, cutoff: int)
    requires Sound(s) && RunsGrounded(s)
    ensures Grounded(s.log, WithdrawnDecisive(s.log, s.runs, run, cutoff))
  {
    forall id | id in WithdrawnDecisive(s.log, s.runs, run, cutoff) ensures exists e ::
      e in s.log.evidence && e.id == id {
      assert s.runs[run] in s.runs;
      if id !in s.runs[run].decision.decisive {
        var l :| l in s.log.links && l.evidenceId == id;
        assert EvidenceById(s.log.evidence, l.evidenceId).Some?;
      }
    }
  }

  lemma {:induction false} FactIdsGrounded(s: Store, key: Key, cutoff: int, facts: seq<Fact>)
    requires forall f :: f in facts ==> f in ScopeFacts(s.log, key, cutoff)
    ensures Grounded(s.log, EvidenceIds(facts))
  {
    ScopeFactsInLog(s, key, cutoff, cutoff);
  }

  lemma {:induction false} PolicyEvidenceIsGrounded(
      s: Store, key: Key, cutoff: int, h: Readings, lastMeaningful: Option<int>, prior: Level, candidate: Option<Level>,
      a: Assessed)
    requires Grounded(s.log, h.withdrawn) && a.facts == ScopeFacts(s.log, key, cutoff)
    ensures Grounded(s.log, FallOrRetain(h, lastMeaningful, prior, candidate, a).evidence)
  {
    FactIdsGrounded(s, key, cutoff, AuthoritativeContradictions(a, RequiredIds(a, prior)));
    FactIdsGrounded(s, key, cutoff, FreshContradictions(a, RequiredIds(a, prior), lastMeaningful, h.lastUsed));
  }

  lemma {:induction false} OutcomeIsGrounded(s: Store, d: Definition, key: Key, cutoff: int)
    requires Evaluable(s, d, key) && RunsGrounded(s)
    ensures Grounded(s.log, ScopeOutcome(s, d, key, cutoff).evidence)
  {
    var p, a := PolicyPrior(s, key, d.id, cutoff), AssessScope(s, d, key, cutoff);
    AssessmentKnowsLevels(s, d, key, cutoff);
    if p.Some? && p.value.level.Some? {
      WithdrawnIsGrounded(s, p.value.run, cutoff);
      PolicyEvidenceIsGrounded(
        s, key, cutoff, ReadHistory(s.log, s.runs, s.events, p.value, cutoff), p.value.lastMeaningful,
        LevelById(a.levels, p.value.level.value), a.Candidate(), a);
    }
  }

  lemma {:induction false} ResultWithin(c: Criterion, facts: seq<Fact>)
    ensures EvaluateCriterion(c, facts).Decisive() <= EvidenceIds(facts)
  {
    assert EvidenceIds(CriterionFactsOf(c, facts)) <= EvidenceIds(facts);
  }

  lemma {:induction false} DecisiveWithin(
      criteria: seq<Criterion>, facts: seq<Fact>, cumulative: seq<CriterionResult>, o: Outcome)
    requires forall r :: r in cumulative ==> r in Results(criteria, facts)
    ensures DecisiveIds(cumulative, o) <= EvidenceIds(facts) + o.evidence
  {
    forall r | r in cumulative ensures r.Decisive() <= EvidenceIds(facts) {
      ResultWithin(r.criterion, facts);
    }
  }

  lemma {:induction false} RunIsGrounded(s: Store, d: Definition, key: Key, cutoff: int, stamp: int)
    requires Evaluable(s, d, key) && RunsGrounded(s)
    ensures Grounded(s.log, RunFor(s, d, key, cutoff, stamp).decision.decisive)
  {
    var a, o := AssessScope(s, d, key, cutoff), ScopeOutcome(s, d, key, cutoff);
    AssessmentKnowsLevels(s, d, key, cutoff);
    OutcomeIsGrounded(s, d, key, cutoff);
    FactIdsGrounded(s, key, cutoff, a.facts);
    DecisiveWithin(ScopeCriteria(d, key.dimension), a.facts, Cumulative(a, o.selected), o);
    assert DecisionFor(a, o).decisive <= EvidenceIds(a.facts) + o.evidence;
  }

  lemma {:induction false} RunIsExplained(s: Store, d: Definition, key: Key, cutoff: int, stamp: int)
    requires Evaluable(s, d, key)
    ensures var r := RunFor(s, d, key, cutoff, stamp);
      && Explained(d.levels, r.results, r.evidence, r.decision)
      && (r.decision.confidenceFacts.retained ==> r.decision.level.Some? && r.decision.cause.None?)
  {
    OutcomeLevel(s, d, key, cutoff);
    OutcomeFits(s, d, key, cutoff);
    DecisionsAreExplained(AssessScope(s, d, key, cutoff), ScopeOutcome(s, d, key, cutoff));
  }

  lemma {:induction false} RunIsOk(s: Store, d: Definition, key: Key, cutoff: int, stamp: int)
    requires Evaluable(s, d, key) && RunsGrounded(s)
    ensures RunOk(s.catalog, s.log, RunFor(s, d, key, cutoff, stamp))
  {
    RunIsGrounded(s, d, key, cutoff, stamp);
    RunIsExplained(s, d, key, cutoff, stamp);
  }

  // ---- The event a live evaluation records ---------------------------------------------------------------

  /** The cutoff does not run behind what has already been recorded for the scope. */
  predicate ClockMoves(s: Store, key: Key, cutoff: int, stamp: int) {
    cutoff <= stamp && forall r :: r in s.runs && r.key == key ==> r.generatedAt <= cutoff
  }

  lemma {:induction false} HistoryIsNumbered(s: Store, key: Key)
    requires ScopeHistory(s, EventsOf(s.events, key))
    ensures Numbered(EventsOf(s.events, key))
  {
    var es := EventsOf(s.events, key);
    forall i | 0 <= i < |es| ensures es[i].sequence == i + 1 { assert EventOk(s, es[..i], es[i]); }
  }

  lemma {:induction false} EventsBeforeClock(s: Store, key: Key, cutoff: int, stamp: int)
    requires HistoryOk(s) && ClockMoves(s, key, cutoff, stamp)
    ensures forall e :: e in s.events && e.key == key ==> e.createdAt <= cutoff
  {
    forall e | e in s.events && e.key == key ensures e.createdAt <= cutoff {
      var es := EventsOf(s.events, e.key);
      assert ScopeOk(s, e.key);
      var i :| 0 <= i < |es| && es[i] == e;
      assert EventOk(s, es[..i], es[i]);
      assert s.runs[e.run] in s.runs;
    }
  }

  /** The policy's two readings of history are the scope's own last sustained downgrade. */
  lemma {:induction false} PolicyReadsHistory(s: Store, key: Key, cutoff: int, stamp: int)
    requires HistoryOk(s) && ClockMoves(s, key, cutoff, stamp)
    ensures LastSustained(s.events, key, cutoff) == LastSustainedOf(EventsOf(s.events, key))
    ensures LastUsedContradiction(s.log, s.events, key, cutoff) == UsedBy(s.log, EventsOf(s.events, key))
  {
    assert ScopeOk(s, key);
    HistoryIsNumbered(s, key);
    EventsBeforeClock(s, key, cutoff, stamp);
    LastSustainedIsLast(s.events, key, cutoff);
  }

  lemma {:induction false} BeforeIsLast(s: Store, key: Key)
    requires HistoryOk(s)
    ensures var es, b := EventsOf(s.events, key), BeforeOf(Cached(s, key), LatestEvent(s.events, key));
      && b.version == |es|
      && (es == [] ==> b == Before(None, None, None, None, 0))
      && (es != [] ==>
           var e := es[|es| - 1];
           b == Before(Some(e.definition), e.newLevel, Some(e.newStatus), Some(e.newConfidence), |es|))
  {
    assert ScopeOk(s, key);
    HistoryIsNumbered(s, key);
    LatestIsLast(s.events, key);
  }

  lemma {:induction false} UsedEvidenceIsNew(
      s: Store, d: Definition, key: Key, cutoff: int, stamp: int, bound: Option<int>, e: Event)
    requires Evaluable(s, d, key) && cutoff <= stamp
    requires e.key == key && e.createdAt == stamp
    requires var o, a := ScopeOutcome(s, d, key, cutoff), AssessScope(s, d, key, cutoff);
      o.evidence <= e.decisive && SustainedBy(a.facts, o.evidence, bound)
    ensures UsesAnew(s.log, bound, e)
  {
    var o, a := ScopeOutcome(s, d, key, cutoff), AssessScope(s, d, key, cutoff);
    ScopeFactsInLog(s, key, cutoff, stamp);
    SustainedUsesAnew(s.log, a.facts, o.evidence, bound, e);
  }

  lemma {:induction false} NamedIsNew(log: Log, facts: seq<Fact>, ids: set<Id>, bound: Option<int>, e: Event, f: Fact)
    requires ids <= e.decisive && NamedContradiction(facts, ids, bound, f) && InLog(log, f, e.key, e.createdAt)
    ensures f.evidence in log.evidence && f.evidence.id in NewlyUsed(log, bound, e)
    ensures OccurrenceOf(f.evidence) in OccurrencesNamed(log, NewlyUsed(log, bound, e))
  {
    assert OccursAfter(f.evidence, bound);
    assert ContradictedInLog(log, e.key, f.evidence.id, bound, e.createdAt);
  }

  lemma {:induction false} TwoOfSet<T>(s: set<T>, x: T, y: T)
    requires x in s && y in s && x != y
    ensures |s| >= 2
  {
    SubsetSize({x, y}, s);
  }

  /** Facts in the log that sustain a downgrade name new occurrences in it. */
  lemma {:induction false} SustainedUsesAnew(log: Log, facts: seq<Fact>, ids: set<Id>, bound: Option<int>, e: Event)
    requires ids <= e.decisive && SustainedBy(facts, ids, bound)
    requires forall f :: f in facts ==> InLog(log, f, e.key, e.createdAt)
    ensures UsesAnew(log, bound, e)
  {
    var f, g :| NamedContradiction(facts, ids, bound, f) && NamedContradiction(facts, ids, bound, g)
      && OccurrenceOf(f.evidence) != OccurrenceOf(g.evidence);
    NamedIsNew(log, facts, ids, bound, e, f);
    NamedIsNew(log, facts, ids, bound, e, g);
    TwoOfSet(OccurrencesNamed(log, NewlyUsed(log, bound, e)), OccurrenceOf(f.evidence), OccurrenceOf(g.evidence));
    var h :| NamedContradiction(facts, ids, bound, h) && h.evidence.independence == Independent;
    NamedIsNew(log, facts, ids, bound, e, h);
  }

  /** What `Justified` asks of an event, given the outcome it was made from. */
  lemma {:induction false} PromiseJustifies(
      s: Store, d: Definition, seen: seq<Payload>, before: seq<Event>, e: Event, h: Readings, prior: Level,
      candidate: Option<Level>, a: Assessed, o: Outcome)
    requires Sound(s) && e.definition == d.id && d.id in s.catalog && s.catalog[d.id] == d && a.levels == d.levels
    requires Comparable(before, e) && prior in d.levels && before[|before| - 1].newLevel == Some(prior.id)
    requires o.selected.Some? ==> o.selected.value in d.levels
    requires e.newLevel == LevelIdOf(o.selected) && (o.cause.Some? ==> e.cause == Downgraded(o.cause.value))
    requires Sustained(e) ==> o.cause == Some(SustainedContradiction)
    requires PolicyPromise(h, prior, candidate, a, o)
    requires h.downgraded == LastSustainedOf(before).Some? && h.lastUsed == UsedBy(s.log, before)
    requires Sustained(e) ==> UsesAnew(s.log, UsedBy(s.log, before), e)
    requires SupportedAfter(a.facts, UsedBy(s.log, before)) ==>
      SupportedInLog(s.log, e.key, UsedBy(s.log, before), e.createdAt, seen)
    ensures Justified(s.catalog, s.log, seen, before, e)
  {
    if o.selected.Some? { LevelByIdUnique(d.levels, o.selected.value); }
    LevelByIdUnique(d.levels, prior);
    assert RankIn(s.catalog, e.definition, e.newLevel) == RankOfSelected(o.selected);
    assert RankIn(s.catalog, e.definition, Some(prior.id)) == prior.rank;
  }

  lemma {:induction false} SupportIsInLog(s: Store, key: Key, cutoff: int, stamp: int, bound: Option<int>)
    requires cutoff <= stamp && SupportedAfter(ScopeFacts(s.log, key, cutoff), bound)
    ensures SupportedInLog(s.log, key, bound, stamp, Payloads(ScopeFacts(s.log, key, cutoff)))
  {
    ScopeFactsInLog(s, key, cutoff, stamp);
    var facts := ScopeFacts(s.log, key, cutoff);
    var i :| 0 <= i < |facts| && IsSupport(facts[i]) && OccursAfter(facts[i].evidence, bound);
    assert Payloads(facts)[i] == PayloadOf(facts[i]);
    assert InLog(s.log, facts[i], key, stamp);
  }

  ghost function LiveEvent(s: Store, d: Definition, key: Key, cutoff: int, stamp: int): Event
    requires Evaluable(s, d, key)
  {
    EventFor(Cached(s, key), LatestEvent(s.events, key), RunFor(s, d, key, cutoff, stamp), |s.runs|)
  }

  lemma {:induction false} LiveEventFollowsOutcome(s: Store, d: Definition, key: Key, cutoff: int, stamp: int)
    requires Evaluable(s, d, key)
    ensures var o, e := ScopeOutcome(s, d, key, cutoff), LiveEvent(s, d, key, cutoff, stamp);
      && e.key == key && e.definition == d.id && e.createdAt == stamp
      && e.newLevel == LevelIdOf(o.selected)
      && (o.cause.Some? ==> e.cause == Downgraded(o.cause.value))
      && (Sustained(e) ==> o.cause == Some(SustainedContradiction))
      && o.evidence <= e.decisive
  {
    AssessmentKnowsLevels(s, d, key, cutoff);
  }

  lemma {:induction false} PriorIsLastEvent(s: Store, d: Definition, key: Key, cutoff: int, stamp: int)
    requires HistoryOk(s) && Evaluable(s, d, key) && !IsReplay(s, key, cutoff)
    ensures var p, es := PolicyPrior(s, key, d.id, cutoff), EventsOf(s.events, key);
      && (Comparable(es, LiveEvent(s, d, key, cutoff, stamp)) <==> p.Some? && p.value.level.Some?)
      && (p.Some? && p.value.level.Some? ==> es[|es| - 1].newLevel == p.value.level)
  {
    assert ScopeOk(s, key);
    LiveEventFollowsOutcome(s, d, key, cutoff, stamp);
  }

  /** What a live event uses is new, and support after what was used before is in the log and was seen. */
  lemma {:induction false} LiveEvidenceFits(s: Store, d: Definition, key: Key, cutoff: int, stamp: int)
    requires HistoryOk(s) && Evaluable(s, d, key) && ClockMoves(s, key, cutoff, stamp) && !IsReplay(s, key, cutoff)
    requires PolicyPrior(s, key, d.id, cutoff).Some? && PolicyPrior(s, key, d.id, cutoff).value.level.Some?
    ensures var bound, e := UsedBy(s.log, EventsOf(s.events, key)), LiveEvent(s, d, key, cutoff, stamp);
      && (Sustained(e) ==> UsesAnew(s.log, bound, e))
      && (SupportedAfter(ScopeFacts(s.log, key, cutoff), bound) ==>
           SupportedInLog(s.log, key, bound, stamp, Payloads(ScopeFacts(s.log, key, cutoff))))
  {
    var bound, e := UsedBy(s.log, EventsOf(s.events, key)), LiveEvent(s, d, key, cutoff, stamp);
    LiveEventFollowsOutcome(s, d, key, cutoff, stamp);
    OutcomeWithPrior(s, d, key, cutoff);
    PolicyReadsHistory(s, key, cutoff, stamp);
    if Sustained(e) { UsedEvidenceIsNew(s, d, key, cutoff, stamp, bound, e); }
    if SupportedAfter(ScopeFacts(s.log, key, cutoff), bound) { SupportIsInLog(s, key, cutoff, stamp, bound); }
  }

  /** The event a live evaluation would record over a known level is justified by the log. */
  lemma {:induction false} ContinuationIsJustified(s: Store, d: Definition, key: Key, cutoff: int, stamp: int)
    requires HistoryOk(s) && Evaluable(s, d, key) && ClockMoves(s, key, cutoff, stamp) && !IsReplay(s, key, cutoff)
    requires PolicyPrior(s, key, d.id, cutoff).Some? && PolicyPrior(s, key, d.id, cutoff).value.level.Some?
    ensures Justified(
      s.catalog, s.log, Payloads(ScopeFacts(s.log, key, cutoff)), EventsOf(s.events, key),
      LiveEvent(s, d, key, cutoff, stamp))
  {
    var es, e := EventsOf(s.events, key), LiveEvent(s, d, key, cutoff, stamp);
    var o, a := ScopeOutcome(s, d, key, cutoff), AssessScope(s, d, key, cutoff);
    var p := PolicyPrior(s, key, d.id, cutoff);
    LiveEventFollowsOutcome(s, d, key, cutoff, stamp);
    PriorIsLastEvent(s, d, key, cutoff, stamp);
    OutcomeWithPrior(s, d, key, cutoff);
    PolicyReadsHistory(s, key, cutoff, stamp);
    LiveEvidenceFits(s, d, key, cutoff, stamp);
    var h := ReadHistory(s.log, s.runs, s.events, p.value, cutoff);
    var seen, prior := Payloads(ScopeFacts(s.log, key, cutoff)), LevelById(d.levels, p.value.level.value);
    PromiseJustifies(s, d, seen, es, e, h, prior, a.Candidate(), a, o);
  }

  lemma {:induction false} BeginningIsJustified(s: Store, d: Definition, key: Key, cutoff: int, stamp: int)
    requires HistoryOk(s) && Evaluable(s, d, key) && !IsReplay(s, key, cutoff)
    requires PolicyPrior(s, key, d.id, cutoff).None? || PolicyPrior(s, key, d.id, cutoff).value.level.None?
    ensures Justified(
      s.catalog, s.log, Payloads(ScopeFacts(s.log, key, cutoff)), EventsOf(s.events, key),
      LiveEvent(s, d, key, cutoff, stamp))
  {
    LiveEventFollowsOutcome(s, d, key, cutoff, stamp);
    PriorIsLastEvent(s, d, key, cutoff, stamp);
    OutcomeWithoutPrior(s, d, key, cutoff);
  }

  /** The event a live evaluation would record is justified by the log and by what its run saw. */
  lemma {:induction false} LiveEventIsJustified(s: Store, d: Definition, key: Key, cutoff: int, stamp: int)
    requires HistoryOk(s) && Evaluable(s, d, key) && ClockMoves(s, key, cutoff, stamp) && !IsReplay(s, key, cutoff)
    ensures Justified(
      s.catalog, s.log, RunFor(s, d, key, cutoff, stamp).evidence, EventsOf(s.events, key),
      LiveEvent(s, d, key, cutoff, stamp))
  {
    var p := PolicyPrior(s, key, d.id, cutoff);
    if p.Some? && p.value.level.Some? {
      ContinuationIsJustified(s, d, key, cutoff, stamp);
    } else {
      BeginningIsJustified(s, d, key, cutoff, stamp);
    }
  }
}

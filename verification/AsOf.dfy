/**
 The read-only reconstruction of a scope's capability at a cutoff: it agrees with a historical replay
 by the engine, and nothing recorded at or after the cutoff changes it.
 */
module AsOf {
  import opened Base
  import opened Model
  import opened ActiveFacts
  import opened Criteria
  import opened Levels
  import opened Downgrade
  import opened Evaluation
  import opened History
  import opened HistoryKept

  // ---- The view ------------------------------------------------------------------------------------------------

  function InsertById(cs: seq<Criterion>, c: Criterion): (r: seq<Criterion>)
    ensures forall x :: x in r <==> x in cs || x == c
  {
    if cs == [] || c.id <= cs[0].id then [c] + cs
    else
      assert cs == [cs[0]] + cs[1..];
      [cs[0]] + InsertById(cs[1..], c)
  }

  /** ORDER BY criterion.id. */
  function OrderedById(cs: seq<Criterion>): (r: seq<Criterion>)
    ensures forall x :: x in r <==> x in cs
  {
    if cs == [] then []
    else
      assert cs == cs[..|cs| - 1] + [cs[|cs| - 1]];
      InsertById(OrderedById(cs[..|cs| - 1]), cs[|cs| - 1])
  }

  /** The criteria of a scope that existed before the exclusive cutoff. */
  function CriteriaBefore(d: Definition, dimension: Option<Id>, exclusive: int): (r: seq<Criterion>)
    ensures forall c :: c in r <==> c in d.criteria && c.dimension == dimension && c.createdAt < exclusive
  {
    OrderedById(Filter(d.criteria, (c: Criterion) => c.dimension == dimension && c.createdAt < exclusive))
  }

  datatype Currency = UnknownCurrency | Current | Aging | Stale

  datatype Thresholds = Thresholds(currentThrough: Option<int>, staleAfter: Option<int>)

  /** The local calendar, and how long a level of the scope stays current. */
  datatype Calendar = Calendar(day: int -> int, thresholds: Option<Level> -> Thresholds)

  /** The rows the view returns beside its decision: what was known of the scope at the cutoff. */
  datatype Record = Record(
    evidence: seq<Fact>, retractions: seq<Retraction>, invalidations: seq<Invalidation>,
    linkRetractions: seq<LinkRetraction>,
    events: seq<Event>, runs: seq<Run>, priorRun: Option<Run>, priorEvents: seq<Event>)

  datatype View = View(
    assessed: Assessed, prior: Option<Prior>, decision: Decision, meaningful: Option<int>, currency: Currency,
    reviewDue: bool,
    record: Record)

  function CurrencyOf(c: Calendar, a: Assessed, level: Option<Level>, meaningful: Option<int>, cutoff: int): Currency {
    if level.Some? && a.IsUnexposed(level.value) then UnknownCurrency
    else if meaningful.None? then UnknownCurrency
    else
      var elapsed, limits := c.day(cutoff) - c.day(meaningful.value), c.thresholds(level);
      if limits.staleAfter.Some? && elapsed > limits.staleAfter.value then Stale
      else if limits.currentThrough.Some? && elapsed > limits.currentThrough.value then Aging
      else Current
  }

  function RetractionOf(ids: set<Id>, cutoff: int): Retraction -> bool {
    (r: Retraction) => r.evidenceId in ids && r.createdAt <= cutoff
  }

  function InvalidationOf(ids: set<Id>, cutoff: int): Invalidation -> bool {
    (i: Invalidation) => i.evidenceId in ids && i.createdAt <= cutoff
  }

  function LinkRetractionOf(ids: set<Id>, cutoff: int): LinkRetraction -> bool {
    (r: LinkRetraction) => r.linkId in ids && r.createdAt <= cutoff
  }

  function EventOf(key: Key, cutoff: int): Event -> bool { (e: Event) => e.key == key && e.createdAt <= cutoff }

  function EventOfRun(run: nat, cutoff: int): Event -> bool { (e: Event) => e.run == run && e.createdAt <= cutoff }

  function RunsBehind(events: seq<Event>, runs: seq<Run>): seq<Run> {
    if events == [] then []
    else
      var e := events[|events| - 1];
      RunsBehind(events[..|events| - 1], runs) + (if e.run < |runs| then [runs[e.run]] else [])
  }

  function LinkIdsIn(rows: seq<Fact>): set<Id> { set f | f in rows :: f.link.id }

  function EventsKnown(s: Store, key: Key, cutoff: int): seq<Event> { Filter(s.events, EventOf(key, cutoff)) }

  function PriorRun(s: Store, prior: Option<Prior>): Option<Run> {
    if prior.Some? && prior.value.run < |s.runs| then Some(s.runs[prior.value.run]) else None
  }

  function PriorEvents(s: Store, prior: Option<Prior>, cutoff: int): seq<Event> {
    if prior.Some? then Filter(s.events, EventOfRun(prior.value.run, cutoff)) else []
  }

  function RecordOf(s: Store, key: Key, prior: Option<Prior>, cutoff: int): Record {
    var rows := Rows(s.log.evidence, s.log.links, key.competency, cutoff);
    var evidenceIds, linkIds := EvidenceIds(rows), LinkIdsIn(rows);
    var events := EventsKnown(s, key, cutoff);
    Record(
      Sorted(rows), Filter(s.log.retractions, RetractionOf(evidenceIds, cutoff)),
      Filter(s.log.invalidations, InvalidationOf(evidenceIds, cutoff)),
        Filter(s.log.linkRetractions, LinkRetractionOf(linkIds, cutoff)),
      events, RunsBehind(events, s.runs),
      PriorRun(s, prior), PriorEvents(s, prior, cutoff))
  }

  function ViewPrior(s: Store, key: Key, definition: Id, cutoff: int): Option<Prior> {
    UnderDefinition(PriorStateAt(s, key, cutoff), definition)
  }

  function ViewAssessment(s: Store, d: Definition, key: Key, exclusive: int): Assessed {
    Assess(d, CriteriaBefore(d, key.dimension, exclusive), ScopeFacts(s.log, key, exclusive - 1))
  }

  lemma {:induction false} ViewKnowsLevels(s: Store, d: Definition, key: Key, exclusive: int)
    requires Evaluable(s, d, key)
    ensures ViewAssessment(s, d, key, exclusive).KnownLevels()
    ensures var p := ViewPrior(s, key, d.id, exclusive - 1);
      p.Some? && p.value.level.Some? ==> p.value.level.value in LevelIds(d.levels)
  {
    var a := ViewAssessment(s, d, key, exclusive);
    forall r | r in a.results ensures r.criterion.level in LevelIds(a.levels) {
      var i :| 0 <= i < |a.results| && a.results[i] == r;
      assert r.criterion == CriteriaBefore(d, key.dimension, exclusive)[i];
    }
  }

  function ViewOutcome(s: Store, d: Definition, key: Key, exclusive: int): Outcome
    requires Evaluable(s, d, key)
  {
    ViewKnowsLevels(s, d, key, exclusive);
    var a := ViewAssessment(s, d, key, exclusive);
    ApplyDowngradePolicy(
      s.log, s.runs, s.events, ViewPrior(s, key, d.id, exclusive - 1), a.Candidate(), a, exclusive - 1)
  }

  /** What the view shows of an assessment and its outcome. */
  function ViewOf(
      calendar: Calendar, a: Assessed, criteria: seq<Criterion>, prior: Option<Prior>, o: Outcome, record: Record,
      cutoff: int): View
    requires a.KnownLevels()
  {
    var decision := DecisionFor(a, o);
    var meaningful := MeaningfulEvidenceAt(a.facts, criteria, o.selected);
    var currency := CurrencyOf(calendar, a, o.selected, meaningful, cutoff);
    var due := currency == Stale || QualifyingContradictions(a.results) != {} || decision.confidence == Low;
    View(a, prior, decision, meaningful, currency, due, record)
  }

  function EvaluateAsOf(calendar: Calendar, s: Store, d: Definition, key: Key, exclusive: int): View
    requires Evaluable(s, d, key)
  {
    ViewKnowsLevels(s, d, key, exclusive);
    var prior := ViewPrior(s, key, d.id, exclusive - 1);
    ViewOf(calendar, ViewAssessment(s, d, key, exclusive), CriteriaBefore(d, key.dimension, exclusive), prior,
      ViewOutcome(s, d, key, exclusive), RecordOf(s, key, prior, exclusive - 1), exclusive - 1)
  }

  // ---- The order in which criteria are read does not matter ------------------------------------------------------

  ghost predicate SameAssessment(a: Assessed, b: Assessed) {
    && a.scale == b.scale && a.levels == b.levels && a.facts == b.facts
    && forall r :: r in a.results <==> r in b.results
  }

  lemma {:induction false} PassedAgree(a: Assessed, b: Assessed, some: seq<Level>)
    requires SameAssessment(a, b) && a.KnownLevels() && b.KnownLevels()
    ensures a.PassedAmong(some) == b.PassedAmong(some)
  {
    if some != [] {
      PassedAgree(a, b, some[..|some| - 1]);
      assert a.Passes(some[|some| - 1]) == b.Passes(some[|some| - 1]);
    }
  }

  lemma {:induction false} RequirementsAgree(a: Assessed, b: Assessed, level: Level)
    requires SameAssessment(a, b)
    ensures RequiredIds(a, level) == RequiredIds(b, level)
  {}

  lemma {:induction false} AuthoritiesAgree(a: Assessed, b: Assessed, required: set<Id>)
    requires SameAssessment(a, b)
    ensures AuthoritativeContradictions(a, required) == AuthoritativeContradictions(b, required)
  {
    FilterAgrees(a.facts, (f: Fact) => IsAuthoritativeContradiction(a, f, required),
      (f: Fact) => IsAuthoritativeContradiction(b, f, required));
  }

  lemma {:induction false} ReassessmentsAgree(a: Assessed, b: Assessed, prior: Level)
    requires SameAssessment(a, b)
    ensures Reassessed(a, prior) == Reassessed(b, prior)
  {
    RequirementsAgree(a, b, prior);
    AuthoritiesAgree(a, b, RequiredIds(a, prior));
  }

  lemma {:induction false} ContradictionsAgree(
      a: Assessed, b: Assessed, required: set<Id>, lastMeaningful: Option<int>, lastUsed: Option<int>)
    requires SameAssessment(a, b)
    ensures FreshContradictions(a, required, lastMeaningful, lastUsed)
      == FreshContradictions(b, required, lastMeaningful, lastUsed)
  {}

  lemma {:induction false} FallsAgree(
      h: Readings, lastMeaningful: Option<int>, prior: Level, candidate: Option<Level>, a: Assessed, b: Assessed)
    requires SameAssessment(a, b)
    ensures FallOrRetain(h, lastMeaningful, prior, candidate, a) == FallOrRetain(h, lastMeaningful, prior, candidate, b)
  {
    RequirementsAgree(a, b, prior);
    AuthoritiesAgree(a, b, RequiredIds(a, prior));
    ReassessmentsAgree(a, b, prior);
    ContradictionsAgree(a, b, RequiredIds(a, prior), lastMeaningful, h.lastUsed);
    assert ReassessedLower(a, prior) == ReassessedLower(b, prior);
  }

  lemma {:induction false} DecisionsAgree(a: Assessed, b: Assessed, o: Outcome)
    requires SameAssessment(a, b) && a.KnownLevels() && b.KnownLevels()
    ensures DecisionFor(a, o) == DecisionFor(b, o)
  {
    PassedAgree(a, b, a.levels);
    var c, e := Cumulative(a, o.selected), Cumulative(b, o.selected);
    assert forall r :: r in c <==> r in e;
    assert QualifyingContradictions(a.results) == QualifyingContradictions(b.results);
    assert DecisiveIds(c, o) == DecisiveIds(e, o);
    CumulativeUnmetAgree(c, e, a.facts, if o.selected.Some? then o.selected.value.id else 0);
  }

  lemma {:induction false} CumulativeUnmetAgree(
      c: seq<CriterionResult>, e: seq<CriterionResult>, facts: seq<Fact>, current: Id)
    requires forall r :: r in c <==> r in e
    ensures UnmetConditions(c, facts, current) == UnmetConditions(e, facts, current)
  {}

  lemma {:induction false} PolicyAgrees(s: Store, p: Option<Prior>, a: Assessed, b: Assessed, cutoff: int)
    requires SameAssessment(a, b) && a.KnownLevels() && b.KnownLevels()
    requires p.Some? && p.value.level.Some? ==> p.value.level.value in LevelIds(a.levels)
    ensures a.Candidate() == b.Candidate()
    ensures ApplyDowngradePolicy(s.log, s.runs, s.events, p, a.Candidate(), a, cutoff)
         == ApplyDowngradePolicy(s.log, s.runs, s.events, p, b.Candidate(), b, cutoff)
  {
    PassedAgree(a, b, a.levels);
    if p.Some? && p.value.level.Some? {
      FallsAgree(ReadHistory(s.log, s.runs, s.events, p.value, cutoff), p.value.lastMeaningful,
        LevelById(a.levels, p.value.level.value), a.Candidate(), a, b);
    }
  }

  // ---- Replay and view agree ---------------------------------------------------------------------------------------

  lemma {:induction false} ResultsFollowCriteria(cs: seq<Criterion>, es: seq<Criterion>, facts: seq<Fact>)
    requires forall c :: c in cs <==> c in es
    ensures forall r :: r in Results(cs, facts) <==> r in Results(es, facts)
  {
    ResultsInclude(cs, es, facts);
    ResultsInclude(es, cs, facts);
  }

  lemma {:induction false} ResultsInclude(cs: seq<Criterion>, es: seq<Criterion>, facts: seq<Fact>)
    requires forall c :: c in cs ==> c in es
    ensures forall r :: r in Results(cs, facts) ==> r in Results(es, facts)
  {
    forall r | r in Results(cs, facts) ensures r in Results(es, facts) {
      var i :| 0 <= i < |cs| && Results(cs, facts)[i] == r;
      assert cs[i] in es;
      var j :| 0 <= j < |es| && es[j] == cs[i];
      assert Results(es, facts)[j] == r;
    }
  }

  /**
   A historical replay at `cutoff` and the view just after `cutoff` reach the same criterion results and the
   same decision (level, status, confidence, cause, decisive evidence), whatever order criteria are stored in.
   */
  lemma {:induction false} ReplayAgreesWithView(
      calendar: Calendar, s: Store, d: Definition, key: Key, cutoff: int, stamp: int)
    requires Evaluable(s, d, key) && IsReplay(s, key, cutoff)
    requires forall c :: c in d.criteria && c.dimension == key.dimension ==> c.createdAt <= cutoff
    ensures RunFor(s, d, key, cutoff, stamp).decision == EvaluateAsOf(calendar, s, d, key, cutoff + 1).decision
    ensures forall r :: r in RunFor(s, d, key, cutoff, stamp).results <==>
      r in EvaluateAsOf(calendar, s, d, key, cutoff + 1).assessed.results
  {
    var a, b := AssessScope(s, d, key, cutoff), ViewAssessment(s, d, key, cutoff + 1);
    AssessmentKnowsLevels(s, d, key, cutoff);
    ViewKnowsLevels(s, d, key, cutoff + 1);
    ResultsFollowCriteria(ScopeCriteria(d, key.dimension), CriteriaBefore(d, key.dimension, cutoff + 1), a.facts);
    PolicyAgrees(s, PolicyPrior(s, key, d.id, cutoff), a, b, cutoff);
    DecisionsAgree(a, b, ScopeOutcome(s, d, key, cutoff));
  }

  // ---- Nothing recorded at or after the cutoff matters ------------------------------------------

  /** `t` is `s` with rows recorded after `cutoff`; rows keep unique ids and refer to existing rows. */
  ghost predicate LaterRows(s: Store, t: Store, cutoff: int) {
    && s.log.evidence <= t.log.evidence
      && (forall e :: e in t.log.evidence[|s.log.evidence|..] ==> e.createdAt > cutoff)
    && s.log.links <= t.log.links && (forall l :: l in t.log.links[|s.log.links|..] ==> l.createdAt > cutoff)
    && s.log.retractions <= t.log.retractions
      && (forall r :: r in t.log.retractions[|s.log.retractions|..] ==> r.createdAt > cutoff)
    && s.log.invalidations <= t.log.invalidations
      && (forall i :: i in t.log.invalidations[|s.log.invalidations|..] ==> i.createdAt > cutoff)
    && s.log.linkRetractions <= t.log.linkRetractions
    && (forall r :: r in t.log.linkRetractions[|s.log.linkRetractions|..] ==> r.createdAt > cutoff)
    && s.runs <= t.runs && (forall r :: r in t.runs[|s.runs|..] ==> r.generatedAt > cutoff)
    && s.events <= t.events && (forall e :: e in t.events[|s.events|..] ==> e.createdAt > cutoff)
    && (forall i, j :: 0 <= i < j < |t.log.links| ==> t.log.links[i].id != t.log.links[j].id)
    && (forall r :: r in s.log.linkRetractions ==> exists l :: l in s.log.links && l.id == r.linkId)
  }

  lemma {:induction false} WithdrawalsStable(s: Store, t: Store, cutoff: int, id: Id)
    requires LaterRows(s, t, cutoff)
    ensures EvidenceWithdrawn(t.log, id, cutoff) == EvidenceWithdrawn(s.log, id, cutoff)
    ensures LinkWithdrawn(t.log, id, cutoff) == LinkWithdrawn(s.log, id, cutoff)
  {
    SplitMembers(s.log.retractions, t.log.retractions);
    SplitMembers(s.log.invalidations, t.log.invalidations);
    SplitMembers(s.log.linkRetractions, t.log.linkRetractions);
  }

  lemma {:induction false} SplitMembers<T>(a: seq<T>, b: seq<T>)
    requires a <= b
    ensures forall x :: x in b <==> x in a || x in b[|a|..]
  {
    assert b == a + b[|a|..];
  }

  lemma {:induction false} RowsStable(s: Store, t: Store, competency: Id, cutoff: int)
    requires Sound(s) && Sound(t) && LaterRows(s, t, cutoff)
    ensures Rows(t.log.evidence, t.log.links, competency, cutoff)
      == Rows(s.log.evidence, s.log.links, competency, cutoff)
  {
    var evidence, links := t.log.evidence[|s.log.evidence|..], t.log.links[|s.log.links|..];
    assert t.log.evidence == s.log.evidence + evidence && t.log.links == s.log.links + links;
    RowsExtend(s.log.evidence, evidence, s.log.links, links, competency, cutoff);
  }

  lemma {:induction false} FactsStable(s: Store, t: Store, key: Key, cutoff: int)
    requires Sound(s) && Sound(t) && LaterRows(s, t, cutoff)
    ensures ScopeFacts(t.log, key, cutoff) == ScopeFacts(s.log, key, cutoff)
  {
    RowsStable(s, t, key.competency, cutoff);
    var rows := Sorted(Rows(s.log.evidence, s.log.links, key.competency, cutoff));
    forall f | f in rows ensures Active(t.log, f, cutoff) == Active(s.log, f, cutoff) {
      WithdrawalsStable(s, t, cutoff, f.evidence.id);
      WithdrawalsStable(s, t, cutoff, f.link.id);
    }
    KeepActiveAgrees(t.log, s.log, rows, cutoff, cutoff);
  }

  lemma {:induction false} LatestKnownStable(
      events: seq<Event>, more: seq<Event>, runs: seq<Run>, runs': seq<Run>, key: Key, cutoff: int)
    requires runs <= runs' && (forall e :: e in events ==> e.run < |runs|)
    requires forall e :: e in more ==> e.createdAt > cutoff
    ensures LatestKnown(events + more, runs', key, cutoff) == LatestKnown(events, runs, key, cutoff)
    decreases |events| + |more|
  {
    if more != [] {
      assert (events + more)[..|events + more| - 1] == events + more[..|more| - 1];
      assert (events + more)[|events + more| - 1] in more;
      LatestKnownStable(events, more[..|more| - 1], runs, runs', key, cutoff);
    } else if events != [] {
      assert events + more == events;
      assert events[..|events| - 1] + [] == events[..|events| - 1];
      LatestKnownStable(events[..|events| - 1], [], runs, runs', key, cutoff);
    }
  }

  lemma {:induction false} LastSustainedStable(events: seq<Event>, more: seq<Event>, key: Key, cutoff: int)
    requires forall e :: e in more ==> e.createdAt > cutoff
    ensures LastSustained(events + more, key, cutoff) == LastSustained(events, key, cutoff)
  {
    if more == [] {
      assert events + more == events;
    } else {
      assert (events + more)[..|events + more| - 1] == events + more[..|more| - 1];
      assert (events + more)[|events + more| - 1] in more;
      LastSustainedStable(events, more[..|more| - 1], key, cutoff);
    }
  }

  /** What history looks like at the cutoff: grounded, so later rows cannot stand in for missing ones. */
  ghost predicate HistoryGrounded(s: Store) {
    && (forall e :: e in s.events ==> e.run < |s.runs| && Grounded(s.log, e.decisive))
    && RunsGrounded(s)
  }

  lemma {:induction false} DecisiveTimesStable(s: Store, t: Store, cutoff: int, ids: set<Id>)
    requires Sound(s) && Sound(t) && LaterRows(s, t, cutoff) && Grounded(s.log, ids)
    ensures LatestOccurrence(t.log.evidence, ids) == LatestOccurrence(s.log.evidence, ids)
  {
    var n := |s.log.evidence|;
    var more := t.log.evidence[n..];
    assert t.log.evidence == s.log.evidence + more;
    forall j | 0 <= j < |more| ensures more[j].id !in ids {
      assert more[j] == t.log.evidence[n + j];
      assert forall i :: 0 <= i < n ==>
        s.log.evidence[i] == t.log.evidence[i] && t.log.evidence[i].id != t.log.evidence[n + j].id;
    }
    LatestOccurrenceStable(s.log.evidence, more, ids);
  }

  lemma {:induction false} PriorStable(s: Store, t: Store, key: Key, cutoff: int)
    requires Sound(s) && Sound(t) && LaterRows(s, t, cutoff) && HistoryGrounded(s)
    ensures PriorStateAt(t, key, cutoff) == PriorStateAt(s, key, cutoff)
    ensures PriorStateAt(s, key, cutoff).Some? ==> PriorStateAt(s, key, cutoff).value.run < |s.runs|
  {
    assert t.events == s.events + t.events[|s.events|..];
    LatestKnownStable(s.events, t.events[|s.events|..], s.runs, t.runs, key, cutoff);
    var e := LatestKnown(s.events, s.runs, key, cutoff);
    if e.Some? {
      assert s.runs[e.value.run] in s.runs && t.runs[e.value.run] == s.runs[e.value.run];
      DecisiveTimesStable(s, t, cutoff, s.runs[e.value.run].decision.decisive);
    }
  }

  lemma {:induction false} UsedStable(s: Store, t: Store, key: Key, cutoff: int)
    requires Sound(s) && Sound(t) && LaterRows(s, t, cutoff) && HistoryGrounded(s)
    ensures LastSustained(t.events, key, cutoff) == LastSustained(s.events, key, cutoff)
    ensures LastUsedContradiction(t.log, t.events, key, cutoff) == LastUsedContradiction(s.log, s.events, key, cutoff)
  {
    assert t.events == s.events + t.events[|s.events|..];
    LastSustainedStable(s.events, t.events[|s.events|..], key, cutoff);
    var e := LastSustained(s.events, key, cutoff);
    if e.Some? { DecisiveTimesStable(s, t, cutoff, e.value.decisive); }
  }

  lemma {:induction false} WithdrawnLinksStable(s: Store, t: Store, cutoff: int)
    requires LaterRows(s, t, cutoff)
    ensures forall l :: l in t.log.links && LinkWithdrawn(t.log, l.id, cutoff) <==>
      l in s.log.links && LinkWithdrawn(s.log, l.id, cutoff)
  {
    var n := |s.log.links|;
    forall l | l in t.log.links && LinkWithdrawn(t.log, l.id, cutoff) ensures l in s.log.links {
      WithdrawalsStable(s, t, cutoff, l.id);
      var r :| r in s.log.linkRetractions && r.linkId == l.id && r.createdAt <= cutoff;
      var m :| m in s.log.links && m.id == r.linkId;
      var i :| 0 <= i < n && s.log.links[i] == m;
      var j :| 0 <= j < |t.log.links| && t.log.links[j] == l;
      assert t.log.links[i] == m;
      assert i == j;
    }
    SplitMembers(s.log.links, t.log.links);
    forall l | l in s.log.links ensures LinkWithdrawn(t.log, l.id, cutoff) == LinkWithdrawn(s.log, l.id, cutoff) {
      WithdrawalsStable(s, t, cutoff, l.id);
    }
  }

  lemma {:induction false} WithdrawnDecisiveStable(s: Store, t: Store, run: nat, cutoff: int)
    requires LaterRows(s, t, cutoff) && run < |s.runs|
    ensures WithdrawnDecisive(t.log, t.runs, run, cutoff) == WithdrawnDecisive(s.log, s.runs, run, cutoff)
  {
    assert t.runs[run] == s.runs[run];
    forall id ensures EvidenceWithdrawn(t.log, id, cutoff) == EvidenceWithdrawn(s.log, id, cutoff) {
      WithdrawalsStable(s, t, cutoff, id);
    }
    WithdrawnLinksStable(s, t, cutoff);
  }

  lemma {:induction false} PolicyStable(
      s: Store, t: Store, p: Option<Prior>, key: Key, candidate: Option<Level>, a: Assessed, cutoff: int)
    requires Sound(s) && Sound(t) && LaterRows(s, t, cutoff) && HistoryGrounded(s)
    requires p.Some? ==> p.value.key == key && p.value.run < |s.runs|
    requires p.Some? && p.value.level.Some? ==> p.value.level.value in LevelIds(a.levels)
    ensures ApplyDowngradePolicy(t.log, t.runs, t.events, p, candidate, a, cutoff)
         == ApplyDowngradePolicy(s.log, s.runs, s.events, p, candidate, a, cutoff)
  {
    UsedStable(s, t, key, cutoff);
    if p.Some? { WithdrawnDecisiveStable(s, t, p.value.run, cutoff); }
  }

  lemma {:induction false} FilterNone(cs: seq<Criterion>)
    ensures Filter(cs, (_: Criterion) => false) == []
  {
    if cs != [] { FilterNone(cs[..|cs| - 1]); }
  }

  lemma {:induction false} OrderedFilterStable(
      cs: seq<Criterion>, more: seq<Criterion>, dimension: Option<Id>, exclusive: int)
    requires forall c :: c in more ==> c.createdAt >= exclusive
    ensures Filter(cs + more, (c: Criterion) => c.dimension == dimension && c.createdAt < exclusive)
         == Filter(cs, (c: Criterion) => c.dimension == dimension && c.createdAt < exclusive)
  {
    var p := (c: Criterion) => c.dimension == dimension && c.createdAt < exclusive;
    FilterConcat(cs, more, p);
    FilterAgrees(more, p, (_: Criterion) => false);
    FilterNone(more);
  }

  /** Rows, and criteria of the same definition, recorded at or after the exclusive cutoff. */
  ghost predicate LaterThan(s: Store, d: Definition, t: Store, d': Definition, exclusive: int) {
    && LaterRows(s, t, exclusive - 1)
    && d.criteria <= d'.criteria && d' == d.(criteria := d'.criteria)
    && forall c :: c in d'.criteria[|d.criteria|..] ==> c.createdAt >= exclusive
  }

  lemma {:induction false} CriteriaAreStable(d: Definition, d': Definition, dimension: Option<Id>, exclusive: int)
    requires d.criteria <= d'.criteria && forall c :: c in d'.criteria[|d.criteria|..] ==> c.createdAt >= exclusive
    ensures CriteriaBefore(d', dimension, exclusive) == CriteriaBefore(d, dimension, exclusive)
  {
    assert d'.criteria == d.criteria + d'.criteria[|d.criteria|..];
    OrderedFilterStable(d.criteria, d'.criteria[|d.criteria|..], dimension, exclusive);
  }

  lemma {:induction false} AssessmentIsStable(
      s: Store, d: Definition, t: Store, d': Definition, key: Key, exclusive: int)
    requires Sound(s) && Sound(t) && LaterThan(s, d, t, d', exclusive)
    ensures ViewAssessment(t, d', key, exclusive) == ViewAssessment(s, d, key, exclusive)
  {
    CriteriaAreStable(d, d', key.dimension, exclusive);
    FactsStable(s, t, key, exclusive - 1);
  }

  lemma {:induction false} FilterLater<T(!new)>(earlier: seq<T>, all: seq<T>, p: T -> bool)
    requires earlier <= all && forall x :: x in all[|earlier|..] ==> !p(x)
    ensures Filter(all, p) == Filter(earlier, p)
  {
    if |earlier| < |all| {
      var init, last := all[..|all| - 1], all[|all| - 1];
      assert last == all[|earlier|..][|all| - 1 - |earlier|];
      assert init[|earlier|..] == all[|earlier|..][..|all| - 1 - |earlier|];
      FilterLater(earlier, init, p);
      FilterAppend(init, last, p);
      assert all == init + [last];
    } else {
      assert all == earlier;
    }
  }

  lemma {:induction false} RunsBehindStable(events: seq<Event>, runs: seq<Run>, runs': seq<Run>)
    requires runs <= runs' && forall e :: e in events ==> e.run < |runs|
    ensures RunsBehind(events, runs') == RunsBehind(events, runs)
  {
    if events != [] {
      assert events[|events| - 1] in events;
      RunsBehindStable(events[..|events| - 1], runs, runs');
    }
  }

  lemma {:induction false} CorrectionsStable(s: Store, t: Store, evidenceIds: set<Id>, linkIds: set<Id>, cutoff: int)
    requires LaterRows(s, t, cutoff)
    ensures Filter(t.log.retractions, RetractionOf(evidenceIds, cutoff))
      == Filter(s.log.retractions, RetractionOf(evidenceIds, cutoff))
    ensures Filter(t.log.invalidations, InvalidationOf(evidenceIds, cutoff))
         == Filter(s.log.invalidations, InvalidationOf(evidenceIds, cutoff))
    ensures Filter(t.log.linkRetractions, LinkRetractionOf(linkIds, cutoff))
         == Filter(s.log.linkRetractions, LinkRetractionOf(linkIds, cutoff))
  {
    FilterLater(s.log.retractions, t.log.retractions, RetractionOf(evidenceIds, cutoff));
    FilterLater(s.log.invalidations, t.log.invalidations, InvalidationOf(evidenceIds, cutoff));
    FilterLater(s.log.linkRetractions, t.log.linkRetractions, LinkRetractionOf(linkIds, cutoff));
  }

  lemma {:induction false} EventsAreStable(s: Store, t: Store, key: Key, cutoff: int)
    requires LaterRows(s, t, cutoff) && forall e :: e in s.events ==> e.run < |s.runs|
    ensures EventsKnown(t, key, cutoff) == EventsKnown(s, key, cutoff)
    ensures RunsBehind(EventsKnown(t, key, cutoff), t.runs) == RunsBehind(EventsKnown(s, key, cutoff), s.runs)
  {
    FilterLater(s.events, t.events, EventOf(key, cutoff));
    RunsBehindStable(EventsKnown(s, key, cutoff), s.runs, t.runs);
  }

  lemma {:induction false} PriorRowsStable(s: Store, t: Store, prior: Option<Prior>, cutoff: int)
    requires LaterRows(s, t, cutoff) && (prior.Some? ==> prior.value.run < |s.runs|)
    ensures PriorRun(t, prior) == PriorRun(s, prior) && PriorEvents(t, prior, cutoff) == PriorEvents(s, prior, cutoff)
  {
    if prior.Some? { FilterLater(s.events, t.events, EventOfRun(prior.value.run, cutoff)); }
  }

  lemma {:induction false} RecordIsStable(s: Store, t: Store, key: Key, prior: Option<Prior>, cutoff: int)
    requires Sound(s) && Sound(t) && LaterRows(s, t, cutoff) && HistoryGrounded(s)
    requires prior.Some? ==> prior.value.run < |s.runs|
    ensures RecordOf(t, key, prior, cutoff) == RecordOf(s, key, prior, cutoff)
  {
    RowsStable(s, t, key.competency, cutoff);
    var rows := Rows(s.log.evidence, s.log.links, key.competency, cutoff);
    CorrectionsStable(s, t, EvidenceIds(rows), LinkIdsIn(rows), cutoff);
    EventsAreStable(s, t, key, cutoff);
    PriorRowsStable(s, t, prior, cutoff);
  }

  lemma {:induction false} OutcomeIsStable(s: Store, d: Definition, t: Store, d': Definition, key: Key, exclusive: int)
    requires Evaluable(s, d, key) && Evaluable(t, d', key) && LaterThan(s, d, t, d', exclusive) && HistoryGrounded(s)
    ensures ViewAssessment(t, d', key, exclusive) == ViewAssessment(s, d, key, exclusive)
    ensures ViewPrior(t, key, d'.id, exclusive - 1) == ViewPrior(s, key, d.id, exclusive - 1)
    ensures ViewOutcome(t, d', key, exclusive) == ViewOutcome(s, d, key, exclusive)
    ensures var p := ViewPrior(s, key, d.id, exclusive - 1); p.Some? ==> p.value.run < |s.runs|
  {
    PriorStable(s, t, key, exclusive - 1);
    AssessmentIsStable(s, d, t, d', key, exclusive);
    ViewKnowsLevels(s, d, key, exclusive);
    var a := ViewAssessment(s, d, key, exclusive);
    PolicyStable(s, t, ViewPrior(s, key, d.id, exclusive - 1), key, a.Candidate(), a, exclusive - 1);
  }

  /**
   Time travel is stable: evidence, links, withdrawals, runs, events and criteria recorded at or after the exclusive
   cutoff leave everything the view returns at that cutoff exactly as it was.
   */
  lemma {:induction false} TimeTravelIsStable(
      calendar: Calendar, s: Store, d: Definition, t: Store, d': Definition, key: Key, exclusive: int)
    requires Evaluable(s, d, key) && Evaluable(t, d', key) && LaterThan(s, d, t, d', exclusive) && HistoryGrounded(s)
    ensures EvaluateAsOf(calendar, t, d', key, exclusive) == EvaluateAsOf(calendar, s, d, key, exclusive)
  {
    OutcomeIsStable(s, d, t, d', key, exclusive);
    CriteriaAreStable(d, d', key.dimension, exclusive);
    RecordIsStable(s, t, key, ViewPrior(s, key, d.id, exclusive - 1), exclusive - 1);
  }

  /** The engine's own histories are grounded. */
  lemma {:induction false} HistoryIsGrounded(s: Store)
    requires HistoryOk(s)
    ensures HistoryGrounded(s)
  {
    forall e | e in s.events ensures e.run < |s.runs| && Grounded(s.log, e.decisive) {
      var es := EventsOf(s.events, e.key);
      assert ScopeOk(s, e.key);
      var i :| 0 <= i < |es| && es[i] == e;
      assert EventOk(s, es[..i], es[i]);
    }
  }
}

/** What the view of an earlier cutoff shows, on rows: its decision, its currency, when a review is due, its record. */
module ViewLaws {
  import opened Base
  import opened Model
  import opened ActiveFacts
  import opened FactLaws
  import opened Criteria
  import opened Levels
  import opened Downgrade
  import opened DowngradeCauses
  import opened Evaluation
  import opened DecisionLaws
  import opened HistoryKept
  import opened RecordingLaws
  import opened AsOf

  // ---- The decision -------------------------------------------------------------------------------

  /** The facts and the criteria of the view: those recorded before the exclusive cutoff, judged. */
  ghost predicate IsAssessment(s: Store, d: Definition, key: Key, exclusive: int, a: Assessed) {
    && a.scale == d.scale && a.levels == d.levels
    && InQueryOrder(a.facts)
    && (forall f :: f in a.facts <==>
         IsActive(s.log, key.competency, exclusive - 1, f) && f.link.dimension == key.dimension)
    && (forall r :: r in a.results <==> exists c ::
         && c in d.criteria && c.dimension == key.dimension && c.createdAt < exclusive
         && r == EvaluateCriterion(c, a.facts))
  }

  /** What the scope's events knew before the cutoff, if under the definition asked for. */
  ghost predicate IsPrior(s: Store, key: Key, definition: Id, exclusive: int, p: Option<Prior>) {
    && (p.Some? ==> p.value.definition == definition)
    && (p.Some? ==> exists e :: LastKnown(s, key, exclusive - 1, e) && LeftBy(s, key, e, p.value))
    && (p.None? && !NoneKnown(s, key, exclusive - 1) ==>
         exists e :: LastKnown(s, key, exclusive - 1, e) && e.definition != definition)
  }

  lemma {:induction false} ResultsOf(criteria: seq<Criterion>, facts: seq<Fact>, r: CriterionResult)
    ensures r in Results(criteria, facts) <==> exists c :: c in criteria && r == EvaluateCriterion(c, facts)
  {
    if c :| c in criteria && r == EvaluateCriterion(c, facts) {
      var i :| 0 <= i < |criteria| && criteria[i] == c;
      assert Results(criteria, facts)[i] == r;
    }
  }

  lemma {:induction false} AssessmentIsExact(s: Store, d: Definition, key: Key, exclusive: int)
    requires Evaluable(s, d, key)
    ensures IsAssessment(s, d, key, exclusive, ViewAssessment(s, d, key, exclusive))
  {
    var a := ViewAssessment(s, d, key, exclusive);
    ScopeFactsAreExact(s.log, key, exclusive - 1);
    forall r ensures r in a.results <==> exists c ::
      c in d.criteria && c.dimension == key.dimension && c.createdAt < exclusive && r == EvaluateCriterion(c, a.facts) {
      ResultsOf(CriteriaBefore(d, key.dimension, exclusive), a.facts, r);
    }
  }

  ghost predicate ById(cs: seq<Criterion>) { forall i, j :: 0 <= i < j < |cs| ==> cs[i].id < cs[j].id }

  lemma {:induction false} InsertedById(cs: seq<Criterion>, c: Criterion)
    requires ById(cs) && forall x :: x in cs ==> x.id != c.id
    ensures ById(InsertById(cs, c))
  {
    if cs != [] && c.id > cs[0].id {
      var rest := InsertById(cs[1..], c);
      InsertedById(cs[1..], c);
      forall j | 0 <= j < |rest| ensures cs[0].id < rest[j].id {
        assert rest[j] in rest;
        if rest[j] != c {
          var k :| 0 <= k < |cs[1..]| && cs[1..][k] == rest[j];
        }
      }
    }
  }

  /** The criteria are read in the order of their ids. */
  lemma {:induction false} ReadById(cs: seq<Criterion>)
    requires UniqueCriteria(cs)
    ensures ById(OrderedById(cs))
  {
    if cs != [] {
      var init, last := cs[..|cs| - 1], cs[|cs| - 1];
      ReadById(init);
      forall x | x in OrderedById(init) ensures x.id != last.id {
        var i :| 0 <= i < |init| && init[i] == x;
      }
      InsertedById(OrderedById(init), last);
    }
  }

  lemma {:induction false} ViewIsValid(s: Store, d: Definition, key: Key, exclusive: int)
    requires Evaluable(s, d, key)
    ensures ViewAssessment(s, d, key, exclusive).Valid()
  {
    ViewKnowsLevels(s, d, key, exclusive);
    FilterKeepsUnique(d.criteria, (c: Criterion) => c.dimension == key.dimension && c.createdAt < exclusive);
    ReadById(Filter(d.criteria, (c: Criterion) => c.dimension == key.dimension && c.createdAt < exclusive));
  }

  /** The view's level is one of the definition's, and its evidence has a cause. */
  lemma {:induction false} ViewOutcomeFits(s: Store, d: Definition, key: Key, exclusive: int)
    requires Evaluable(s, d, key)
    ensures Fitting(ViewAssessment(s, d, key, exclusive), ViewOutcome(s, d, key, exclusive))
  {
    var a, p := ViewAssessment(s, d, key, exclusive), ViewPrior(s, key, d.id, exclusive - 1);
    ViewIsValid(s, d, key, exclusive);
    ViewKnowsLevels(s, d, key, exclusive);
    PolicyFits(s.log, s.runs, s.events, p, a, exclusive - 1);
  }

  /**
   The decision of the view is that of the policy for the highest level earned and for what the events knew, and
   explained by the results.
   */
  lemma {:induction false} ViewIsDecided(calendar: Calendar, s: Store, d: Definition, key: Key, exclusive: int)
    returns (candidate: Option<Level>, o: Outcome)
    requires Evaluable(s, d, key)
    ensures var v := EvaluateAsOf(calendar, s, d, key, exclusive);
      && IsAssessment(s, d, key, exclusive, v.assessed) && IsPrior(s, key, d.id, exclusive, v.prior)
      && IsCandidate(v.assessed, candidate)
      && PolicyDecides(s.log, s.runs, s.events, v.prior, candidate, v.assessed, exclusive - 1, o)
      && Shows(v.assessed, v.decision, o)
      && Explained(d.levels, v.assessed.results, Payloads(v.assessed.facts), v.decision)
  {
    var a := ViewAssessment(s, d, key, exclusive);
    ViewIsValid(s, d, key, exclusive);
    ViewKnowsLevels(s, d, key, exclusive);
    ViewOutcomeFits(s, d, key, exclusive);
    candidate, o := a.Candidate(), ViewOutcome(s, d, key, exclusive);
    AssessmentIsExact(s, d, key, exclusive);
    ViewPriorIsExact(s, key, d.id, exclusive);
    OutcomeIsDecided(s, a, ViewPrior(s, key, d.id, exclusive - 1), exclusive - 1, o);
  }

  lemma {:induction false} ViewPriorIsExact(s: Store, key: Key, definition: Id, exclusive: int)
    ensures IsPrior(s, key, definition, exclusive, ViewPrior(s, key, definition, exclusive - 1))
  {
    PriorStateIsExact(s, key, exclusive - 1);
  }

  lemma {:induction false} OutcomeIsDecided(s: Store, a: Assessed, prior: Option<Prior>, cutoff: int, o: Outcome)
    requires Fitting(a, o)
    requires prior.Some? && prior.value.level.Some? ==> prior.value.level.value in LevelIds(a.levels)
    requires o == ApplyDowngradePolicy(s.log, s.runs, s.events, prior, a.Candidate(), a, cutoff)
    ensures IsCandidate(a, a.Candidate())
    ensures PolicyDecides(s.log, s.runs, s.events, prior, a.Candidate(), a, cutoff, o)
    ensures Shows(a, DecisionFor(a, o), o) && Explained(a.levels, a.results, Payloads(a.facts), DecisionFor(a, o))
  {
    CandidateIsHighestPassed(a);
    CausesAreExact(s.log, s.runs, s.events, prior, a.Candidate(), a, cutoff);
    DecisionsAreExplained(a, o);
  }

  // ---- Currency and review ------------------------------------------------------------------------

  /** The view's level as a row of the scale. */
  ghost predicate IsLevel(d: Definition, id: Option<Id>, level: Option<Level>) {
    match level
    case None => id.None?
    case Some(l) => l in d.levels && id == Some(l.id)
  }

  ghost predicate Exceeds(elapsed: int, limit: Option<int>) { limit.Some? && limit.value < elapsed }

  /** Evidence has an age unless there is none or the level is the unexposed one of the technical scale. */
  ghost predicate HasAge(d: Definition, level: Option<Level>, meaningful: Option<int>) {
    meaningful.Some? && !(d.scale == "technical" && level.Some? && level.value.key == "unexposed")
  }

  /** Stale past the one limit, aging past the other, in local days since the last meaningful evidence. */
  ghost predicate IsCurrency(
      calendar: Calendar, d: Definition, level: Option<Level>, meaningful: Option<int>, cutoff: int, currency: Currency)
  {
    && (currency == UnknownCurrency <==> !HasAge(d, level, meaningful))
    && (HasAge(d, level, meaningful) ==>
         var elapsed := calendar.day(cutoff) - calendar.day(meaningful.value);
         var stale, aging := calendar.thresholds(level).staleAfter, calendar.thresholds(level).currentThrough;
         && (currency == Stale <==> Exceeds(elapsed, stale))
         && (currency == Aging <==> !Exceeds(elapsed, stale) && Exceeds(elapsed, aging))
         && (currency == Current <==> !Exceeds(elapsed, stale) && !Exceeds(elapsed, aging)))
  }

  lemma {:induction false} CurrencyMeans(
      calendar: Calendar, d: Definition, a: Assessed, level: Option<Level>, meaningful: Option<int>, cutoff: int)
    requires a.scale == d.scale
    ensures IsCurrency(calendar, d, level, meaningful, cutoff, CurrencyOf(calendar, a, level, meaningful, cutoff))
  {}

  /**
   The view's currency follows from the days since the last fact that refreshes the level, and a review is due exactly
   when that is stale, a required or important criterion is contradicted, or the confidence is low.
   */
  lemma {:induction false} CurrencyIsExact(calendar: Calendar, s: Store, d: Definition, key: Key, exclusive: int)
    returns (level: Option<Level>)
    requires Evaluable(s, d, key)
    ensures var v := EvaluateAsOf(calendar, s, d, key, exclusive);
      && IsLevel(d, v.decision.level, level)
      && IsRefreshed(v.assessed.facts, CriteriaBefore(d, key.dimension, exclusive), level, v.meaningful)
      && IsCurrency(calendar, d, level, v.meaningful, exclusive - 1, v.currency)
      && (v.reviewDue <==>
           v.currency == Stale || HasContradiction(v.assessed.results) || v.decision.confidence == Confidence.Low)
  {
    var a, o := ViewAssessment(s, d, key, exclusive), ViewOutcome(s, d, key, exclusive);
    var criteria := CriteriaBefore(d, key.dimension, exclusive);
    level := o.selected;
    ViewKnowsLevels(s, d, key, exclusive);
    ViewOutcomeFits(s, d, key, exclusive);
    ViewShows(calendar, a, criteria, ViewPrior(s, key, d.id, exclusive - 1), o,
      RecordOf(s, key, ViewPrior(s, key, d.id, exclusive - 1), exclusive - 1), exclusive - 1);
    CurrencyMeans(calendar, d, a, level, MeaningfulEvidenceAt(a.facts, criteria, level), exclusive - 1);
  }

  lemma {:induction false} ViewShows(
      calendar: Calendar, a: Assessed, criteria: seq<Criterion>, prior: Option<Prior>, o: Outcome, record: Record,
      cutoff: int)
    requires a.KnownLevels()
    ensures var v := ViewOf(calendar, a, criteria, prior, o, record, cutoff);
      && v.decision.level == LevelIdOf(o.selected) && v.assessed == a
      && IsRefreshed(a.facts, criteria, o.selected, v.meaningful)
      && v.currency == CurrencyOf(calendar, a, o.selected, v.meaningful, cutoff)
      && (v.reviewDue <==>
           v.currency == Stale || HasContradiction(a.results) || v.decision.confidence == Confidence.Low)
  {
    MeaningfulIsLatest(a.facts, criteria, o.selected);
    ContradictedMeans(a);
  }

  lemma {:induction false} ContradictedMeans(a: Assessed)
    ensures QualifyingContradictions(a.results) != {} <==> HasContradiction(a.results)
  {
    forall id: Id ensures id in QualifyingContradictions(a.results) <==> Contradicting(a.results, id) {
      ContradictionsMean(a, id);
    }
    if QualifyingContradictions(a.results) != {} { var id :| id in QualifyingContradictions(a.results); }
    if HasContradiction(a.results) { var id: Id :| Contradicting(a.results, id); }
  }

  /** The age of a currency that is known. */
  ghost function Age(c: Currency): nat {
    match c case UnknownCurrency => 0 case Current => 1 case Aging => 2 case Stale => 3
  }

  /** The local days from the view's last meaningful evidence to its cutoff. */
  ghost function DaysSince(calendar: Calendar, v: View, exclusive: int): int
    requires v.meaningful.Some?
  {
    calendar.day(exclusive - 1) - calendar.day(v.meaningful.value)
  }

  /** Of two views with one level and known currency, the one with more days elapsed is never the more current. */
  lemma {:induction false} OlderIsNeverMoreCurrent(
      calendar: Calendar, s: Store, t: Store, d: Definition, key: Key, earlier: int, later: int)
    requires Evaluable(s, d, key) && Evaluable(t, d, key)
    requires var v, w := EvaluateAsOf(calendar, s, d, key, earlier), EvaluateAsOf(calendar, t, d, key, later);
      && v.decision.level == w.decision.level && v.currency != UnknownCurrency && w.currency != UnknownCurrency
      && v.meaningful.Some? && w.meaningful.Some?
      && DaysSince(calendar, v, earlier) <= DaysSince(calendar, w, later)
    ensures Age(EvaluateAsOf(calendar, s, d, key, earlier).currency)
      <= Age(EvaluateAsOf(calendar, t, d, key, later).currency)
  {
    var l := CurrencyIsExact(calendar, s, d, key, earlier);
    var m := CurrencyIsExact(calendar, t, d, key, later);
    if l.Some? {
      LevelByIdUnique(d.levels, l.value);
      LevelByIdUnique(d.levels, m.value);
    }
  }

  // ---- The record ---------------------------------------------------------------------------------

  ghost predicate Mentions(rows: seq<Fact>, evidence: Id) { exists f :: f in rows && f.evidence.id == evidence }

  ghost predicate MentionsLink(rows: seq<Fact>, link: Id) { exists f :: f in rows && f.link.id == link }

  /** The withdrawals recorded before the cutoff of the evidence and the links listed. */
  ghost predicate ShowsWithdrawals(log: Log, exclusive: int, r: Record) {
    && (forall x :: x in r.retractions <==>
         x in log.retractions && x.createdAt < exclusive && Mentions(r.evidence, x.evidenceId))
    && (forall x :: x in r.invalidations <==>
         x in log.invalidations && x.createdAt < exclusive && Mentions(r.evidence, x.evidenceId))
    && (forall x :: x in r.linkRetractions <==>
         x in log.linkRetractions && x.createdAt < exclusive && MentionsLink(r.evidence, x.linkId))
  }

  /** The events recorded before the cutoff of the scope and of the run behind its state, and their runs. */
  ghost predicate ShowsEvents(s: Store, key: Key, prior: Option<Prior>, exclusive: int, r: Record) {
    && (forall e :: e in r.events <==> e in s.events && e.key == key && e.createdAt < exclusive)
    && (forall x :: x in r.runs <==> exists e :: e in r.events && e.run < |s.runs| && s.runs[e.run] == x)
    && (forall x :: r.priorRun == Some(x) <==>
         prior.Some? && prior.value.run < |s.runs| && s.runs[prior.value.run] == x)
    && (forall e :: e in r.priorEvents <==>
         prior.Some? && e in s.events && e.run == prior.value.run && e.createdAt < exclusive)
  }

  /** Everything recorded before the cutoff about the evidence of the competency and the events of the scope. */
  ghost predicate IsRecord(s: Store, key: Key, prior: Option<Prior>, exclusive: int, r: Record) {
    && InQueryOrder(r.evidence) && (forall f :: f in r.evidence <==> IsRow(s.log, key.competency, exclusive - 1, f))
    && ShowsWithdrawals(s.log, exclusive, r) && ShowsEvents(s, key, prior, exclusive, r)
  }

  lemma {:induction false} RunsBehindMean(events: seq<Event>, runs: seq<Run>, x: Run)
    ensures x in RunsBehind(events, runs) <==> exists e :: e in events && e.run < |runs| && runs[e.run] == x
  {
    if events != [] {
      var init, last := events[..|events| - 1], events[|events| - 1];
      RunsBehindMean(init, runs, x);
      assert forall e :: e in events <==> e in init || e == last;
    }
  }

  lemma {:induction false} WithdrawalsAreShown(s: Store, key: Key, prior: Option<Prior>, exclusive: int)
    ensures ShowsWithdrawals(s.log, exclusive, RecordOf(s, key, prior, exclusive - 1))
  {
    var rows := Rows(s.log.evidence, s.log.links, key.competency, exclusive - 1);
    var r := RecordOf(s, key, prior, exclusive - 1);
    forall x ensures x in r.retractions <==>
      x in s.log.retractions && x.createdAt < exclusive && Mentions(r.evidence, x.evidenceId) {
      MentionedMeans(rows, x.evidenceId);
    }
    forall x ensures x in r.invalidations <==>
      x in s.log.invalidations && x.createdAt < exclusive && Mentions(r.evidence, x.evidenceId) {
      MentionedMeans(rows, x.evidenceId);
    }
    forall x ensures x in r.linkRetractions <==>
      x in s.log.linkRetractions && x.createdAt < exclusive && MentionsLink(r.evidence, x.linkId) {
      MentionedMeans(rows, x.linkId);
    }
  }

  lemma {:induction false} MentionedMeans(rows: seq<Fact>, id: Id)
    ensures id in EvidenceIds(rows) <==> Mentions(Sorted(rows), id)
    ensures id in LinkIdsIn(rows) <==> MentionsLink(Sorted(rows), id)
  {}

  lemma {:induction false} EventsAreShown(s: Store, key: Key, prior: Option<Prior>, exclusive: int)
    ensures ShowsEvents(s, key, prior, exclusive, RecordOf(s, key, prior, exclusive - 1))
  {
    var r := RecordOf(s, key, prior, exclusive - 1);
    forall x ensures x in r.runs <==> exists e :: e in r.events && e.run < |s.runs| && s.runs[e.run] == x {
      RunsBehindMean(r.events, s.runs, x);
    }
  }

  /** The record of the view is that of the log at the cutoff. */
  lemma {:induction false} RecordIsExact(calendar: Calendar, s: Store, d: Definition, key: Key, exclusive: int)
    requires Evaluable(s, d, key)
    ensures var v := EvaluateAsOf(calendar, s, d, key, exclusive); IsRecord(s, key, v.prior, exclusive, v.record)
  {
    var prior := ViewPrior(s, key, d.id, exclusive - 1);
    RowsAreExact(s.log, key.competency, exclusive - 1);
    WithdrawalsAreShown(s, key, prior, exclusive);
    EventsAreShown(s, key, prior, exclusive);
  }
}

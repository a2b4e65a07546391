/**
 What a decision says of the results and the evidence it was made from: its confidence, the conditions high confidence
 lacks, the evidence that decided it.
 */
module DecisionLaws {
  import opened Base
  import opened Model
  import opened ActiveFacts
  import opened Criteria
  import opened Levels
  import opened Downgrade
  import opened Evaluation

  /** The level `id` ranks no higher than the selected one. */
  ghost predicate UpTo(levels: seq<Level>, id: Id, selected: Option<Id>) {
    exists l, m :: l in levels && m in levels && l.id == id && Some(m.id) == selected && l.rank <= m.rank
  }

  /** Independent support for the criterion from a source of at least medium confidence. */
  ghost predicate Vouches(p: Payload, criterion: Id) {
    && p.criterion == Some(criterion) && p.effect == Supports && p.independence == Independent
    && (p.sourceConfidence == Confidence.Medium || p.sourceConfidence == Confidence.High)
  }

  ghost predicate VouchesInContext(p: Payload, criterion: Id) {
    Vouches(p, criterion) && (p.strength == Moderate || p.strength == Strong) && p.context != LEGACY_CONTEXT
  }

  /** A strong voucher, or two of at least moderate strength in different known contexts. */
  ghost predicate Robust(seen: seq<Payload>, criterion: Id) {
    || (exists p :: p in seen && Vouches(p, criterion) && p.strength == Strong)
    || SeenInTwo(seen, criterion)
  }

  ghost predicate SeenInTwo(seen: seq<Payload>, criterion: Id) {
    exists p, q :: p in seen && q in seen && VouchesInContext(p, criterion) && VouchesInContext(q, criterion)
      && p.context != q.context
  }

  /** What keeps a decision from high confidence. */
  ghost predicate Lacks(
      levels: seq<Level>, results: seq<CriterionResult>, seen: seq<Payload>, selected: Option<Id>, u: Unmet)
  {
    match u
    case UnmetImportant(id) =>
      exists x :: x in results && x.criterion.id == id && UpTo(levels, x.criterion.level, selected)
        && x.criterion.requirement == Important && x.state != Demonstrated
    case UnmetRobustSupport(id) =>
      exists x :: x in results && x.criterion.id == id && Some(x.criterion.level) == selected
        && x.criterion.requirement == Required && !Robust(seen, id)
    case UnresolvedContradiction =>
      exists x :: x in results && UpTo(levels, x.criterion.level, selected)
        && x.criterion.requirement != Supporting && x.state == Contradicted
  }

  /** Evidence that contradicts some required or important criterion. */
  ghost predicate Contradicting(results: seq<CriterionResult>, id: Id) {
    exists x :: x in results && x.criterion.requirement != Supporting && id in x.contradictions
  }

  ghost predicate HasContradiction(results: seq<CriterionResult>) { exists id :: Contradicting(results, id) }

  ghost predicate HasLack(
      levels: seq<Level>, results: seq<CriterionResult>, seen: seq<Payload>, selected: Option<Id>)
  {
    exists u :: Lacks(levels, results, seen, selected, u)
  }

  /** The confidence is unknown without a level, low when in doubt, high when nothing is lacking, medium otherwise. */
  ghost predicate ConfidenceExplained(
      levels: seq<Level>, results: seq<CriterionResult>, seen: seq<Payload>, d: Decision)
  {
    var doubt := d.confidenceFacts.retained || HasContradiction(results);
    && (d.confidence == Confidence.Unknown <==> d.level.None?)
    && (d.confidence == Confidence.Low <==> d.level.Some? && doubt)
    && (d.confidence == Confidence.High <==> d.level.Some? && !doubt && !HasLack(levels, results, seen, d.level))
    && (d.confidence == Confidence.Medium <==> d.level.Some? && !doubt && HasLack(levels, results, seen, d.level))
    && (forall u :: u in d.confidenceFacts.unmet <==> Lacks(levels, results, seen, d.level, u))
    && (forall id :: id in d.confidenceFacts.contradictions <==> Contradicting(results, id))
  }

  /** Evidence that supports or contradicts a criterion up to the selected level. */
  ghost predicate Decides(levels: seq<Level>, results: seq<CriterionResult>, selected: Option<Id>, id: Id) {
    exists x ::
      x in results && UpTo(levels, x.criterion.level, selected) && (id in x.supports || id in x.contradictions)
  }

  /** The decisive evidence is what decides the criteria up to the level, and with a cause what the cause names too. */
  ghost predicate DecisiveExplained(
      levels: seq<Level>, results: seq<CriterionResult>, seen: seq<Payload>, d: Decision)
  {
    && (forall id :: Decides(levels, results, d.level, id) ==> id in d.decisive)
    && (d.cause.None? ==> forall id :: id in d.decisive ==> Decides(levels, results, d.level, id))
    && d.confidenceFacts.diversity == |set p | p in seen && p.evidenceId in d.decisive :: p.occurrence|
    && (d.status == NotEvaluated <==> d.level.None?)
  }

  ghost predicate Explained(levels: seq<Level>, results: seq<CriterionResult>, seen: seq<Payload>, d: Decision) {
    ConfidenceExplained(levels, results, seen, d) && DecisiveExplained(levels, results, seen, d)
  }

  // ---- Every decision is explained ----------------------------------------------------------------

  /** An outcome the policy can have: a level of the scale, and evidence only for a cause. */
  ghost predicate Fitting(a: Assessed, o: Outcome) {
    && a.Valid() && (o.selected.Some? ==> o.selected.value in a.levels)
    && (o.cause.None? ==> o.evidence == {})
  }

  lemma {:induction false} FallFits(
      h: Readings, lastMeaningful: Option<int>, prior: Level, candidate: Option<Level>, a: Assessed)
    requires a.Valid() && prior in a.levels && (candidate.Some? ==> candidate.value in a.levels)
    ensures Fitting(a, FallOrRetain(h, lastMeaningful, prior, candidate, a))
  {}

  lemma {:induction false} PolicyFits(
      log: Log, runs: seq<Run>, events: seq<Event>, previous: Option<Prior>, a: Assessed, cutoff: int)
    requires a.Valid()
    requires previous.Some? && previous.value.level.Some? ==> previous.value.level.value in LevelIds(a.levels)
    ensures Fitting(a, ApplyDowngradePolicy(log, runs, events, previous, a.Candidate(), a, cutoff))
  {
    CandidateIsHighestPassed(a);
    if previous.Some? && previous.value.level.Some? {
      FallFits(ReadHistory(log, runs, events, previous.value, cutoff), previous.value.lastMeaningful,
        LevelById(a.levels, previous.value.level.value), a.Candidate(), a);
    }
  }

  lemma {:induction false} CumulativeMeans(a: Assessed, o: Outcome, x: CriterionResult)
    requires Fitting(a, o)
    ensures x in Cumulative(a, o.selected) <==>
      x in a.results && UpTo(a.levels, x.criterion.level, LevelIdOf(o.selected))
  {
    if x in a.results && UpTo(a.levels, x.criterion.level, LevelIdOf(o.selected)) {
      var l, m :| l in a.levels && m in a.levels && l.id == x.criterion.level
        && Some(m.id) == LevelIdOf(o.selected) && l.rank <= m.rank;
      LevelByIdUnique(a.levels, l);
      LevelByIdUnique(a.levels, m);
      LevelByIdUnique(a.levels, o.selected.value);
    }
    if x in Cumulative(a, o.selected) {
      assert LevelById(a.levels, x.criterion.level) in a.levels;
    }
  }

  lemma {:induction false} SeenMeans(facts: seq<Fact>, p: Payload)
    ensures p in Payloads(facts) <==> exists f :: f in facts && PayloadOf(f) == p
  {
    if f :| f in facts && PayloadOf(f) == p {
      var i :| 0 <= i < |facts| && facts[i] == f;
      assert Payloads(facts)[i] == p;
    }
  }

  /** A fact that is a confident support of the criterion vouches for it. */
  lemma {:induction false} VouchingMeans(c: Criterion, facts: seq<Fact>, f: Fact)
    ensures f in Filter(CriterionFactsOf(c, facts), IsConfidentSupport) <==> f in facts && Vouches(PayloadOf(f), c.id)
  {}

  lemma {:induction false} TwoContexts(supports: seq<Fact>)
    ensures |ContextsOf(supports)| >= 2 <==> exists f, g ::
      f in supports && g in supports && InContext(f) && InContext(g) && ContextOf(f.evidence) != ContextOf(g.evidence)
  {
    var contexts := ContextsOf(supports);
    if |contexts| >= 2 {
      var x :| x in contexts;
      assert |contexts - {x}| >= 1;
      var y :| y in contexts - {x};
      var f :| f in supports && InContext(f) && ContextOf(f.evidence) == x;
      var g :| g in supports && InContext(g) && ContextOf(g.evidence) == y;
    }
    if exists f, g ::
      f in supports && g in supports && InContext(f) && InContext(g) && ContextOf(f.evidence) != ContextOf(g.evidence)
    {
      var f, g :| f in supports && g in supports && InContext(f) && InContext(g)
        && ContextOf(f.evidence) != ContextOf(g.evidence);
      SubsetSize({ContextOf(f.evidence), ContextOf(g.evidence)}, contexts);
    }
  }

  ghost predicate AreVouching(supports: seq<Fact>, c: Criterion, facts: seq<Fact>) {
    forall f :: f in supports <==> f in facts && Vouches(PayloadOf(f), c.id)
  }

  lemma {:induction false} Voucher(c: Criterion, facts: seq<Fact>, supports: seq<Fact>, p: Payload) returns (f: Fact)
    requires AreVouching(supports, c, facts) && p in Payloads(facts) && Vouches(p, c.id)
    ensures f in supports && PayloadOf(f) == p
  {
    SeenMeans(facts, p);
    f :| f in facts && PayloadOf(f) == p;
  }

  lemma {:induction false} StrongIsSeen(c: Criterion, facts: seq<Fact>, supports: seq<Fact>)
    requires AreVouching(supports, c, facts)
    ensures (exists f :: f in supports && f.evidence.strength == Strong) <==>
      exists p :: p in Payloads(facts) && Vouches(p, c.id) && p.strength == Strong
  {
    if f :| f in supports && f.evidence.strength == Strong {
      SeenMeans(facts, PayloadOf(f));
    }
    if p :| p in Payloads(facts) && Vouches(p, c.id) && p.strength == Strong {
      var f := Voucher(c, facts, supports, p);
    }
  }

  lemma {:induction false} ContextIsSeen(c: Criterion, facts: seq<Fact>, supports: seq<Fact>, f: Fact)
    requires AreVouching(supports, c, facts) && f in supports && InContext(f)
    ensures PayloadOf(f) in Payloads(facts) && VouchesInContext(PayloadOf(f), c.id)
  {
    SeenMeans(facts, PayloadOf(f));
  }

  lemma {:induction false} SeenInContext(c: Criterion, facts: seq<Fact>, supports: seq<Fact>, p: Payload)
    returns (f: Fact)
    requires AreVouching(supports, c, facts) && p in Payloads(facts) && VouchesInContext(p, c.id)
    ensures f in supports && InContext(f) && ContextOf(f.evidence) == p.context
  {
    f := Voucher(c, facts, supports, p);
  }

  lemma {:induction false} ContextsAreSeen(c: Criterion, facts: seq<Fact>, supports: seq<Fact>)
    requires AreVouching(supports, c, facts)
    ensures |ContextsOf(supports)| >= 2 <==> SeenInTwo(Payloads(facts), c.id)
  {
    TwoContexts(supports);
    if |ContextsOf(supports)| >= 2 {
      var f, g :| f in supports && g in supports && InContext(f) && InContext(g)
        && ContextOf(f.evidence) != ContextOf(g.evidence);
      ContextIsSeen(c, facts, supports, f);
      ContextIsSeen(c, facts, supports, g);
      assert PayloadOf(f).context != PayloadOf(g).context;
    } else if SeenInTwo(Payloads(facts), c.id) {
      var p, q :| p in Payloads(facts) && q in Payloads(facts) && VouchesInContext(p, c.id) && VouchesInContext(q, c.id)
        && p.context != q.context;
      var f := SeenInContext(c, facts, supports, p);
      var g := SeenInContext(c, facts, supports, q);
    }
  }

  lemma {:induction false} RobustnessMeans(c: Criterion, facts: seq<Fact>)
    ensures RobustlySupported(c, facts) <==> Robust(Payloads(facts), c.id)
  {
    var supports := Filter(CriterionFactsOf(c, facts), IsConfidentSupport);
    forall f ensures f in supports <==> f in facts && Vouches(PayloadOf(f), c.id) { VouchingMeans(c, facts, f); }
    StrongIsSeen(c, facts, supports);
    ContextsAreSeen(c, facts, supports);
  }

  lemma {:induction false} UnmetMeans(a: Assessed, o: Outcome, u: Unmet)
    requires Fitting(a, o) && o.selected.Some?
    ensures u in UnmetFor(a, o.selected) <==> Lacks(a.levels, a.results, Payloads(a.facts), LevelIdOf(o.selected), u)
  {
    var cumulative := Cumulative(a, o.selected);
    forall x
      ensures x in cumulative <==> x in a.results && UpTo(a.levels, x.criterion.level, LevelIdOf(o.selected))
    {
      CumulativeMeans(a, o, x);
    }
    match u {
      case UnmetImportant(id) =>
      case UnmetRobustSupport(id) => RobustLackMeans(a, o, id);
      case UnresolvedContradiction =>
    }
  }

  lemma {:induction false} RobustLackMeans(a: Assessed, o: Outcome, id: Id)
    requires Fitting(a, o) && o.selected.Some?
    ensures UnmetRobustSupport(id) in UnmetFor(a, o.selected) <==>
      Lacks(a.levels, a.results, Payloads(a.facts), LevelIdOf(o.selected), UnmetRobustSupport(id))
  {
    var cumulative, level := Cumulative(a, o.selected), o.selected.value;
    forall x | x in a.results && x.criterion.level == level.id ensures x in cumulative {
      assert UpTo(a.levels, x.criterion.level, Some(level.id));
      CumulativeMeans(a, o, x);
    }
    forall x | x in a.results
      ensures RobustlySupported(x.criterion, a.facts) <==> Robust(Payloads(a.facts), x.criterion.id)
    {
      RobustnessMeans(x.criterion, a.facts);
    }
  }

  lemma {:induction false} ContradictionsMean(a: Assessed, id: Id)
    ensures id in QualifyingContradictions(a.results) <==> Contradicting(a.results, id)
  {}

  lemma {:induction false} ConfidenceIsExplained(a: Assessed, o: Outcome)
    requires Fitting(a, o)
    ensures ConfidenceExplained(a.levels, a.results, Payloads(a.facts), DecisionFor(a, o))
  {
    var d, seen := DecisionFor(a, o), Payloads(a.facts);
    forall id ensures id in d.confidenceFacts.contradictions <==> Contradicting(a.results, id) {
      ContradictionsMean(a, id);
    }
    forall u ensures u in d.confidenceFacts.unmet <==> Lacks(a.levels, a.results, seen, d.level, u) {
      if o.selected.Some? { UnmetMeans(a, o, u); }
    }
    NoneUnmet(a, seen, d);
  }

  lemma {:induction false} NoneUnmet(a: Assessed, seen: seq<Payload>, d: Decision)
    requires forall u :: u in d.confidenceFacts.unmet <==> Lacks(a.levels, a.results, seen, d.level, u)
    requires forall id :: id in d.confidenceFacts.contradictions <==> Contradicting(a.results, id)
    ensures d.confidenceFacts.unmet == {} <==> !HasLack(a.levels, a.results, seen, d.level)
    ensures d.confidenceFacts.contradictions == {} <==> !HasContradiction(a.results)
  {
    if d.confidenceFacts.unmet != {} { var u :| u in d.confidenceFacts.unmet; }
    if d.confidenceFacts.contradictions != {} { var id :| id in d.confidenceFacts.contradictions; }
  }

  lemma {:induction false} DecidingMeans(a: Assessed, o: Outcome, id: Id)
    requires Fitting(a, o)
    ensures id in DecisiveIds(Cumulative(a, o.selected), o) <==>
      Decides(a.levels, a.results, LevelIdOf(o.selected), id) || id in o.evidence
  {
    var cumulative := Cumulative(a, o.selected);
    if id in DecisiveIds(cumulative, o) && id !in o.evidence {
      var x :| x in cumulative && id in x.Decisive();
      CumulativeMeans(a, o, x);
    }
    if Decides(a.levels, a.results, LevelIdOf(o.selected), id) {
      var x :| x in a.results && UpTo(a.levels, x.criterion.level, LevelIdOf(o.selected))
        && (id in x.supports || id in x.contradictions);
      CumulativeMeans(a, o, x);
      assert id in x.Decisive();
    }
  }

  lemma {:induction false} DiversityMeans(facts: seq<Fact>, decisive: set<Id>)
    ensures (set f | f in facts && f.evidence.id in decisive :: OccurrenceOf(f.evidence))
      == set p | p in Payloads(facts) && p.evidenceId in decisive :: p.occurrence
  {
    forall f | f in facts ensures PayloadOf(f) in Payloads(facts) { SeenMeans(facts, PayloadOf(f)); }
    forall p | p in Payloads(facts) ensures exists f :: f in facts && PayloadOf(f) == p { SeenMeans(facts, p); }
  }

  lemma {:induction false} DecisiveIsExplained(a: Assessed, o: Outcome)
    requires Fitting(a, o)
    ensures DecisiveExplained(a.levels, a.results, Payloads(a.facts), DecisionFor(a, o))
  {
    var d := DecisionFor(a, o);
    forall id
      ensures id in d.decisive <==> Decides(a.levels, a.results, d.level, id) || id in o.evidence
    {
      DecidingMeans(a, o, id);
    }
    DiversityMeans(a.facts, d.decisive);
  }

  /**
   Every decision over a valid assessment is explained: its confidence, what it lacks, its contradictions, its decisive
   evidence and its diversity follow from the results and the evidence seen.
   */
  lemma {:induction false} DecisionsAreExplained(a: Assessed, o: Outcome)
    requires Fitting(a, o)
    ensures Explained(a.levels, a.results, Payloads(a.facts), DecisionFor(a, o))
    ensures forall id :: id in DecisionFor(a, o).decisive <==>
      Decides(a.levels, a.results, LevelIdOf(o.selected), id) || id in o.evidence
    ensures forall id :: id in DecisionFor(a, o).passed <==> exists l :: l in a.levels && Earned(a, l) && l.id == id
  {
    ConfidenceIsExplained(a, o);
    DecisiveIsExplained(a, o);
    forall id { DecidingMeans(a, o, id); }
    PassedAreEarned(a, o);
  }

  lemma {:induction false} PassedIdsMean(passed: seq<Level>, id: Id)
    ensures id in PassedIds(passed) <==> exists l :: l in passed && l.id == id
  {
    if l :| l in passed && l.id == id {
      var i :| 0 <= i < |passed| && passed[i] == l;
      assert PassedIds(passed)[i] == id;
    }
  }

  lemma {:induction false} PassedAreEarned(a: Assessed, o: Outcome)
    requires a.Valid()
    ensures forall id :: id in DecisionFor(a, o).passed <==> exists l :: l in a.levels && Earned(a, l) && l.id == id
  {
    CandidateIsHighestPassed(a);
    forall id ensures id in PassedIds(a.Passed()) <==> exists l :: l in a.levels && Earned(a, l) && l.id == id {
      PassedIdsMean(a.Passed(), id);
    }
  }
}

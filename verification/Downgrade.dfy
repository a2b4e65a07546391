/** Evaluation history rows, and the downgrade policy that reads them back. */
module Downgrade {
  import opened Base
  import opened Model
  import opened ActiveFacts
  import opened Criteria
  import opened Levels

  // ---- History rows ----------------------------------------------------------------------------

  datatype DowngradeCause = InvalidationCorrection | AuthoritativeReassessment | SustainedContradiction

  datatype EventCause = Downgraded(cause: DowngradeCause) | DefinitionChanged | Evaluation

  datatype Status = Evaluated | NotEvaluated

  datatype ConfidenceFacts = ConfidenceFacts(
    unmet: set<Unmet>, contradictions: set<Id>, diversity: nat, retained: bool)

  /** The part of a fact that enters the evidence-set hash. */
  datatype Payload = Payload(
    evidenceId: Id, linkId: Id, criterion: Option<Id>, effect: Effect, strength: Strength,
    independence: Independence, sourceConfidence: Confidence, occurredAt: Option<int>,
    occurrence: Occurrence, context: string)

  function PayloadOf(f: Fact): Payload {
    Payload(f.evidence.id, f.link.id, f.link.criterion, f.link.effect, f.evidence.strength,
      f.evidence.independence, f.evidence.sourceConfidence, f.evidence.occurredAt,
      OccurrenceOf(f.evidence), ContextOf(f.evidence))
  }

  function Payloads(facts: seq<Fact>): (r: seq<Payload>)
    ensures |r| == |facts| && forall i :: 0 <= i < |facts| ==> r[i] == PayloadOf(facts[i])
  {
    seq(|facts|, i requires 0 <= i < |facts| => PayloadOf(facts[i]))
  }

  datatype Decision = Decision(
    level: Option<Id>, status: Status, confidence: Confidence, confidenceFacts: ConfidenceFacts,
    cause: Option<DowngradeCause>, decisive: set<Id>, passed: seq<Id>)

  /** A run's id is its position in the run table. */
  datatype Run = Run(
    key: Key, definition: Id, cutoff: int, generatedAt: int,
    evidence: seq<Payload>, results: seq<CriterionResult>, decision: Decision)

  datatype Event = Event(
    key: Key, definition: Id, sequence: nat,
    previousLevel: Option<Id>, newLevel: Option<Id>,
    previousStatus: Option<Status>, newStatus: Status,
    previousConfidence: Option<Confidence>, newConfidence: Confidence,
    cause: EventCause, decisive: set<Id>, run: nat, createdAt: int)

  /** What the policy reads of the state before an evaluation. */
  datatype Prior = Prior(key: Key, definition: Id, level: Option<Id>, run: nat, lastMeaningful: Option<int>)

  // ---- Reading history back ----------------------------------------------------------------------

  predicate IsSustained(e: Event, key: Key, cutoff: int) {
    e.key == key && e.cause == Downgraded(SustainedContradiction) && e.createdAt <= cutoff
  }

  /** The sustained-contradiction event of a scope with the highest sequence by the cutoff. */
  function LastSustained(events: seq<Event>, key: Key, cutoff: int): (r: Option<Event>)
    ensures r.Some? ==> r.value in events && IsSustained(r.value, key, cutoff)
    ensures forall e :: e in events && IsSustained(e, key, cutoff) ==> r.Some? && e.sequence <= r.value.sequence
  {
    if events == [] then None
    else
      var e := events[|events| - 1];
      var rest := LastSustained(events[..|events| - 1], key, cutoff);
      if IsSustained(e, key, cutoff) && (rest.None? || rest.value.sequence <= e.sequence) then Some(e) else rest
  }

  /** When the evidence that decided the last sustained downgrade occurred. */
  function LastUsedContradiction(log: Log, events: seq<Event>, key: Key, cutoff: int): Option<int> {
    var e := LastSustained(events, key, cutoff);
    if e.None? then None else LatestOccurrence(log.evidence, e.value.decisive)
  }

  function DecisiveLinks(results: seq<CriterionResult>): set<Id> {
    set r, id | r in results && id in r.facts.decisiveLinks :: id
  }

  /** Evidence that decided the prior run and has since been withdrawn or unlinked. */
  function WithdrawnDecisive(log: Log, runs: seq<Run>, run: nat, cutoff: int): set<Id> {
    if run >= |runs| then {}
    else
      (set id | id in runs[run].decision.decisive && EvidenceWithdrawn(log, id, cutoff))
      + (set l | l in log.links && l.id in DecisiveLinks(runs[run].results) && LinkWithdrawn(log, l.id, cutoff)
          :: l.evidenceId)
  }

  /** Everything the policy reads back from history. */
  datatype Readings = Readings(downgraded: bool, lastUsed: Option<int>, withdrawn: set<Id>)

  function ReadHistory(log: Log, runs: seq<Run>, events: seq<Event>, p: Prior, cutoff: int): Readings {
    Readings(
      LastSustained(events, p.key, cutoff).Some?,
      LastUsedContradiction(log, events, p.key, cutoff),
      WithdrawnDecisive(log, runs, p.run, cutoff))
  }

  // ---- The policy ----------------------------------------------------------------------------------

  datatype Outcome = Outcome(
    selected: Option<Level>, cause: Option<DowngradeCause>, evidence: set<Id>, retained: bool)

  function RequiredIds(a: Assessed, level: Level): set<Id> {
    set r | r in a.results && a.IsDirectRequired(r, level) :: r.criterion.id
  }

  predicate ContradictsRequired(f: Fact, required: set<Id>) {
    IsContradiction(f) && f.link.criterion.Some? && f.link.criterion.value in required
  }

  predicate IsAuthoritativeContradiction(a: Assessed, f: Fact, required: set<Id>) {
    && f.evidence.authoritative
    && IsAuthoritativeGrade(f.evidence)
    && ContradictsRequired(f, required)
    && f.evidence.provenance.downgradeAuthority in {LocalUserConfirmed, TrustedExternalAssessor}
    && exists r ::
      r in a.results && Some(r.criterion.id) == f.link.criterion && RubricBound(f.evidence.provenance, r.criterion)
  }

  function AuthoritativeContradictions(a: Assessed, required: set<Id>): (r: seq<Fact>)
    ensures forall f :: f in r <==> f in a.facts && IsAuthoritativeContradiction(a, f, required)
  {
    Filter(a.facts, (f: Fact) => IsAuthoritativeContradiction(a, f, required))
  }

  /** The first level whose id is the only one declared. */
  function OnlyDeclared(levels: seq<Level>, declared: set<Option<Id>>): (r: Option<Level>)
    ensures r.Some? ==> r.value in levels
  {
    if levels == [] then None
    else if declared == {Some(levels[0].id)} then Some(levels[0])
    else OnlyDeclared(levels[1..], declared)
  }

  /** The criteria linked to evidence that contradicts the level with authority. */
  function Coverage(a: Assessed, required: set<Id>): set<Option<Id>> {
    var ids := EvidenceIds(AuthoritativeContradictions(a, required));
    set f | f in a.facts && f.evidence.id in ids :: f.link.criterion
  }

  function DeclaredLevels(a: Assessed, required: set<Id>): set<Option<Id>> {
    set f | f in AuthoritativeContradictions(a, required) :: f.evidence.provenance.maximumLevel
  }

  predicate CoversAll(required: set<Id>, coverage: set<Option<Id>>) {
    forall id :: id in required ==> Some(id) in coverage
  }

  /** The level an authoritative reassessment of every required criterion of `prior` agrees on. */
  function Reassessed(a: Assessed, prior: Level): (r: Option<Level>)
    ensures r.Some? ==> r.value in a.levels
  {
    var required := RequiredIds(a, prior);
    if required != {} && CoversAll(required, Coverage(a, required))
      then OnlyDeclared(a.levels, DeclaredLevels(a, required)) else None
  }

  predicate IsFreshContradiction(f: Fact, required: set<Id>, lastMeaningful: Option<int>, lastUsed: Option<int>) {
    && ContradictsRequired(f, required)
    && Meaningful(f.evidence)
    && f.evidence.occurredAt.Some?
    && After(f.evidence.occurredAt.value, lastMeaningful)
    && After(f.evidence.occurredAt.value, lastUsed)
  }

  /** One fresh contradiction per occurrence. */
  function FreshContradictions(
      a: Assessed, required: set<Id>, lastMeaningful: Option<int>, lastUsed: Option<int>): (r: seq<Fact>)
    ensures DistinctOccurrences(r)
    ensures forall f :: f in r ==> f in a.facts && IsFreshContradiction(f, required, lastMeaningful, lastUsed)
  {
    ByOccurrence(Filter(a.facts, (f: Fact) => IsFreshContradiction(f, required, lastMeaningful, lastUsed)))
  }

  function LevelAtRank(levels: seq<Level>, rank: int): (r: Option<Level>)
    ensures r.Some? ==> r.value in levels && r.value.rank == rank
    ensures r.None? ==> forall l :: l in levels ==> l.rank != rank
  {
    if levels == [] then None
    else if levels[0].rank == rank then Some(levels[0])
    else LevelAtRank(levels[1..], rank)
  }

  function OneBelow(rank: int): int { if rank - 1 < 0 then 0 else rank - 1 }

  predicate SupportedAfter(facts: seq<Fact>, bound: Option<int>) {
    exists f :: f in facts && IsSupport(f) && f.evidence.occurredAt.Some? && After(f.evidence.occurredAt.value, bound)
  }

  /** After a sustained downgrade a rise waits for support later than the evidence that decided it. */
  predicate HeldBack(h: Readings, a: Assessed) { h.downgraded && !SupportedAfter(a.facts, h.lastUsed) }

  predicate ReassessedLower(a: Assessed, prior: Level) {
    Reassessed(a, prior).Some? && Reassessed(a, prior).value.rank < prior.rank
  }

  predicate SustainedContradictions(recent: seq<Fact>) {
    |recent| >= 2 && exists f :: f in recent && f.evidence.independence == Independent
  }

  /** The candidate is below the prior level, or there is none. */
  function FallOrRetain(
      h: Readings, lastMeaningful: Option<int>, prior: Level, candidate: Option<Level>, a: Assessed): Outcome
  {
    var required := RequiredIds(a, prior);
    if h.withdrawn != {} then Outcome(candidate, Some(InvalidationCorrection), h.withdrawn, false)
    else if ReassessedLower(a, prior) then
      Outcome(Reassessed(a, prior), Some(AuthoritativeReassessment),
        EvidenceIds(AuthoritativeContradictions(a, required)), false)
    else
      var recent := FreshContradictions(a, required, lastMeaningful, h.lastUsed);
      if SustainedContradictions(recent) then
        Outcome(LevelAtRank(a.levels, OneBelow(prior.rank)), Some(SustainedContradiction), EvidenceIds(recent), false)
      else Outcome(Some(prior), None, {}, true)
  }

  function RiseOrHold(h: Readings, prior: Level, candidate: Option<Level>, a: Assessed): Outcome {
    if HeldBack(h, a) then Outcome(Some(prior), None, {}, true) else Outcome(candidate, None, {}, false)
  }

  function ApplyDowngradePolicy(
      log: Log, runs: seq<Run>, events: seq<Event>, previous: Option<Prior>,
      candidate: Option<Level>, a: Assessed, cutoff: int): Outcome
    requires previous.Some? && previous.value.level.Some? ==> previous.value.level.value in LevelIds(a.levels)
  {
    if previous.None? || previous.value.level.None? then Outcome(candidate, None, {}, false)
    else
      var prior := LevelById(a.levels, previous.value.level.value);
      var h := ReadHistory(log, runs, events, previous.value, cutoff);
      if candidate.Some? && candidate.value.rank >= prior.rank then RiseOrHold(h, prior, candidate, a)
      else FallOrRetain(h, previous.value.lastMeaningful, prior, candidate, a)
  }

  // ---- What one application of the policy promises ---------------------------------------------------

  function RankOfSelected(level: Option<Level>): int { if level.None? then -1 else level.value.rank }

  /** `f` is one of the facts, belongs to the named evidence and is a meaningful contradiction after `bound`. */
  ghost predicate NamedContradiction(facts: seq<Fact>, ids: set<Id>, bound: Option<int>, f: Fact) {
    && f in facts && f.evidence.id in ids && IsContradiction(f) && Meaningful(f.evidence)
    && f.evidence.occurredAt.Some? && After(f.evidence.occurredAt.value, bound)
  }

  /** All the named evidence contradicts after `bound`, from at least two occurrences and once independently. */
  ghost predicate SustainedBy(facts: seq<Fact>, ids: set<Id>, bound: Option<int>) {
    && (forall id :: id in ids ==> exists f :: NamedContradiction(facts, {id}, bound, f))
    && (exists f, g :: NamedContradiction(facts, ids, bound, f) && NamedContradiction(facts, ids, bound, g)
          && OccurrenceOf(f.evidence) != OccurrenceOf(g.evidence))
    && exists f :: NamedContradiction(facts, ids, bound, f) && f.evidence.independence == Independent
  }

  /** Everything a caller may rely on about the outcome for a known prior level. */
  ghost predicate PolicyPromise(h: Readings, prior: Level, candidate: Option<Level>, a: Assessed, o: Outcome) {
    // a fall has a cause
    && (RankOfSelected(o.selected) < prior.rank ==> o.cause.Some?)
    // a sustained contradiction moves exactly one rank down, when there is such a rank, on evidence not used before
    && (o.cause == Some(SustainedContradiction) ==>
         o.selected == LevelAtRank(a.levels, OneBelow(prior.rank)) && SustainedBy(a.facts, o.evidence, h.lastUsed))
    // retention keeps the prior level, without a cause
    && (o.retained ==> o.selected == Some(prior) && o.cause.None?)
    // a rise is to the candidate, and after a sustained downgrade needs later support
    && (RankOfSelected(o.selected) > prior.rank ==>
         && o.selected == candidate && o.cause.None?
         && (h.downgraded ==> SupportedAfter(a.facts, h.lastUsed)))
    // and no level is invented
    && (o.selected.Some? ==> o.selected == candidate || o.selected.value in a.levels)
  }

  lemma {:induction false} DistinctOccurrenceIds(facts: seq<Fact>)
    requires DistinctOccurrences(facts)
    requires forall f, g :: f in facts && g in facts && f.evidence.id == g.evidence.id ==> f.evidence == g.evidence
    ensures |EvidenceIds(facts)| == |facts|
  {
    if facts != [] {
      var init, last := facts[..|facts| - 1], facts[|facts| - 1];
      assert facts == init + [last];
      DistinctOccurrenceIds(init);
      assert EvidenceIds(facts) == EvidenceIds(init) + {last.evidence.id};
      assert last.evidence.id !in EvidenceIds(init);
    }
  }

  /** Evidence rows are identified by their ids. */
  ghost predicate ConsistentFacts(facts: seq<Fact>) {
    forall f, g :: f in facts && g in facts && f.evidence.id == g.evidence.id ==> f.evidence == g.evidence
  }

  /**
   Contradictions that sustain a downgrade: fresh for the level, and from distinct evidence of distinct occurrences.
   */
  lemma {:induction false} FreshContradictionsQualify(
      a: Assessed, required: set<Id>, lastMeaningful: Option<int>, lastUsed: Option<int>)
    requires ConsistentFacts(a.facts)
    ensures var recent := FreshContradictions(a, required, lastMeaningful, lastUsed);
      && |EvidenceIds(recent)| == |recent|
      && (forall f :: f in recent ==> f in a.facts && IsFreshContradiction(f, required, lastMeaningful, lastUsed))
      && (SustainedContradictions(recent) ==> SustainedBy(a.facts, EvidenceIds(recent), lastUsed))
  {
    var recent := FreshContradictions(a, required, lastMeaningful, lastUsed);
    DistinctOccurrenceIds(recent);
    if SustainedContradictions(recent) { FreshSustains(a, recent, lastUsed); }
  }

  lemma {:induction false} FreshSustains(a: Assessed, recent: seq<Fact>, lastUsed: Option<int>)
    requires DistinctOccurrences(recent) && SustainedContradictions(recent)
    requires forall f :: f in recent ==> NamedContradiction(a.facts, {f.evidence.id}, lastUsed, f)
    ensures SustainedBy(a.facts, EvidenceIds(recent), lastUsed)
  {
    var ids := EvidenceIds(recent);
    forall f | f in recent ensures NamedContradiction(a.facts, ids, lastUsed, f) {
      assert NamedContradiction(a.facts, {f.evidence.id}, lastUsed, f);
    }
    assert NamedContradiction(a.facts, ids, lastUsed, recent[0])
      && NamedContradiction(a.facts, ids, lastUsed, recent[1]);
    var f :| f in recent && f.evidence.independence == Independent;
    assert NamedContradiction(a.facts, ids, lastUsed, f);
  }

  lemma {:induction false} SustainedFall(h: Readings, prior: Level, candidate: Option<Level>, a: Assessed, ids: set<Id>)
    requires a.Valid() && prior in a.levels && SustainedBy(a.facts, ids, h.lastUsed)
    ensures PolicyPromise(h, prior, candidate, a,
      Outcome(LevelAtRank(a.levels, OneBelow(prior.rank)), Some(SustainedContradiction), ids, false))
  {}

  lemma {:induction false} OtherFall(h: Readings, prior: Level, candidate: Option<Level>, a: Assessed, o: Outcome)
    requires prior in a.levels && RankOfSelected(candidate) < prior.rank && !o.retained
    requires
      || (o.cause == Some(InvalidationCorrection) && o.selected == candidate)
      || (o.cause == Some(AuthoritativeReassessment) && o.selected.Some? && o.selected.value in a.levels
          && o.selected.value.rank < prior.rank)
    ensures PolicyPromise(h, prior, candidate, a, o)
  {}

  lemma {:induction false} FallKeepsPromise(
      h: Readings, lastMeaningful: Option<int>, prior: Level, candidate: Option<Level>, a: Assessed)
    requires a.Valid() && ConsistentFacts(a.facts) && prior in a.levels
    requires RankOfSelected(candidate) < prior.rank
    ensures PolicyPromise(h, prior, candidate, a, FallOrRetain(h, lastMeaningful, prior, candidate, a))
  {
    var recent := FreshContradictions(a, RequiredIds(a, prior), lastMeaningful, h.lastUsed);
    if h.withdrawn != {} || ReassessedLower(a, prior) {
      OtherFall(h, prior, candidate, a, FallOrRetain(h, lastMeaningful, prior, candidate, a));
    } else if SustainedContradictions(recent) {
      FreshContradictionsQualify(a, RequiredIds(a, prior), lastMeaningful, h.lastUsed);
      SustainedFall(h, prior, candidate, a, EvidenceIds(recent));
    }
  }

  lemma {:induction false} PolicyKeepsItsPromise(
      log: Log, runs: seq<Run>, events: seq<Event>, previous: Prior, candidate: Option<Level>, a: Assessed, cutoff: int)
    requires a.Valid() && ConsistentFacts(a.facts)
    requires previous.level.Some? && previous.level.value in LevelIds(a.levels)
    ensures PolicyPromise(
      ReadHistory(log, runs, events, previous, cutoff), LevelById(a.levels, previous.level.value), candidate, a,
      ApplyDowngradePolicy(log, runs, events, Some(previous), candidate, a, cutoff))
  {
    var prior := LevelById(a.levels, previous.level.value);
    if RankOfSelected(candidate) < prior.rank {
      FallKeepsPromise(ReadHistory(log, runs, events, previous, cutoff), previous.lastMeaningful, prior, candidate, a);
    }
  }
}

/** One scope's evaluation as a value: from facts and history to a decision, and what it records. */
module Evaluation {
  import opened Base
  import opened Model
  import opened ActiveFacts
  import opened Criteria
  import opened Levels
  import opened Downgrade

  // ---- From facts to a decision ------------------------------------------------------------------

  function Results(criteria: seq<Criterion>, facts: seq<Fact>): (r: seq<CriterionResult>)
    ensures |r| == |criteria| && forall i :: 0 <= i < |criteria| ==> r[i] == EvaluateCriterion(criteria[i], facts)
  {
    seq(|criteria|, i requires 0 <= i < |criteria| => EvaluateCriterion(criteria[i], facts))
  }

  function Assess(d: Definition, criteria: seq<Criterion>, facts: seq<Fact>): Assessed {
    Assessed(d.scale, d.levels, Results(criteria, facts), facts)
  }

  function ScopeCriteria(d: Definition, dimension: Option<Id>): (r: seq<Criterion>)
    ensures forall c :: c in r <==> c in d.criteria && c.dimension == dimension
  {
    Filter(d.criteria, (c: Criterion) => c.dimension == dimension)
  }

  function Cumulative(a: Assessed, selected: Option<Level>): (r: seq<CriterionResult>)
    requires a.KnownLevels()
    ensures forall x :: x in r <==>
      x in a.results && selected.Some? && LevelById(a.levels, x.criterion.level).rank <= selected.value.rank
  {
    if selected.None? then []
    else Filter(a.results, (x: CriterionResult) =>
      x.criterion.level in LevelIds(a.levels) && LevelById(a.levels, x.criterion.level).rank <= selected.value.rank)
  }

  function QualifyingContradictions(results: seq<CriterionResult>): set<Id> {
    set r, id | r in results && r.criterion.requirement in {Required, Important} && id in r.contradictions :: id
  }

  function ConfidenceIn(selected: Option<Level>, retained: bool, contradictions: set<Id>, high: bool): Confidence {
    if selected.None? then Unknown
    else if retained || contradictions != {} then Low
    else if high then High
    else Medium
  }

  function DecisiveIds(cumulative: seq<CriterionResult>, o: Outcome): set<Id> {
    (set r, id | r in cumulative && id in r.Decisive() :: id) + o.evidence
  }

  function UnmetFor(a: Assessed, selected: Option<Level>): set<Unmet>
    requires a.KnownLevels()
  {
    if selected.None? then {} else UnmetConditions(Cumulative(a, selected), a.facts, selected.value.id)
  }

  function LevelIdOf(l: Option<Level>): Option<Id> { if l.None? then None else Some(l.value.id) }

  function PassedIds(passed: seq<Level>): seq<Id> {
    seq(|passed|, i requires 0 <= i < |passed| => passed[i].id)
  }

  function DecisionFor(a: Assessed, o: Outcome): Decision
    requires a.KnownLevels()
  {
    var unmet := UnmetFor(a, o.selected);
    var contradictions := QualifyingContradictions(a.results);
    var decisive := DecisiveIds(Cumulative(a, o.selected), o);
    Decision(
      LevelIdOf(o.selected),
      if o.selected.Some? then Evaluated else NotEvaluated,
      ConfidenceIn(o.selected, o.retained, contradictions, o.selected.Some? && unmet == {}),
      ConfidenceFacts(unmet, contradictions,
        |set f | f in a.facts && f.evidence.id in decisive :: OccurrenceOf(f.evidence)|, o.retained),
      o.cause, decisive, PassedIds(a.Passed()))
  }

  // ---- The store -----------------------------------------------------------------------------------

  /** The cached capability of one scope. */
  datatype Projection = Projection(
    definition: Id, level: Option<Id>, status: Status, confidence: Confidence, confidenceFacts: ConfidenceFacts,
    run: nat, evidence: seq<Payload>, lastEvaluated: int, lastMeaningful: Option<int>, version: nat)

  datatype Store = Store(
    catalog: map<Id, Definition>,
    active: map<Id, Id>,
    log: Log,
    runs: seq<Run>,
    events: seq<Event>,
    states: map<Key, Projection>)

  function LevelsOf(catalog: map<Id, Definition>, definition: Id): set<Id> {
    if definition in catalog then LevelIds(catalog[definition].levels) else {}
  }

  /** What keys and foreign keys guarantee: unique ids, links with their evidence, levels of the right scale. */
  ghost predicate Sound(s: Store) {
    && (forall id :: id in s.catalog ==> s.catalog[id].id == id && WellFormedDefinition(s.catalog[id]))
    && (forall c :: c in s.active ==> s.active[c] in s.catalog && s.catalog[s.active[c]].competency == c)
    && (forall e :: e in s.events && e.newLevel.Some? ==> e.newLevel.value in LevelsOf(s.catalog, e.definition))
    && (forall k :: k in s.states && s.states[k].level.Some? ==>
      s.states[k].level.value in LevelsOf(s.catalog, s.states[k].definition))
    && (forall i, j :: 0 <= i < j < |s.log.evidence| ==> s.log.evidence[i].id != s.log.evidence[j].id)
    && (forall l :: l in s.log.links ==> EvidenceById(s.log.evidence, l.evidenceId).Some?)
  }

  /** The definition that governs a competency's evaluation, if any. */
  function ActiveDefinition(s: Store, competency: Id): Option<Definition> {
    if competency in s.active && s.active[competency] in s.catalog then Some(s.catalog[s.active[competency]]) else None
  }

  // ---- Prior state ---------------------------------------------------------------------------------

  predicate KnownBy(e: Event, runs: seq<Run>, key: Key, cutoff: int) {
    e.key == key && e.run < |runs| && runs[e.run].cutoff <= cutoff && runs[e.run].generatedAt <= cutoff
      && e.createdAt <= cutoff
  }

  /** ORDER BY run.cutoff_at DESC, event_sequence DESC. */
  predicate Precedes(e: Event, f: Event, runs: seq<Run>)
    requires e.run < |runs| && f.run < |runs|
  {
    runs[e.run].cutoff > runs[f.run].cutoff || (runs[e.run].cutoff == runs[f.run].cutoff && e.sequence > f.sequence)
  }

  function LatestKnown(events: seq<Event>, runs: seq<Run>, key: Key, cutoff: int): (r: Option<Event>)
    ensures r.Some? ==> r.value in events && KnownBy(r.value, runs, key, cutoff)
    ensures forall e :: e in events && KnownBy(e, runs, key, cutoff) ==> r.Some? && !Precedes(e, r.value, runs)
  {
    if events == [] then None
    else
      var e := events[|events| - 1];
      var rest := LatestKnown(events[..|events| - 1], runs, key, cutoff);
      if KnownBy(e, runs, key, cutoff) && (rest.None? || Precedes(e, rest.value, runs)) then Some(e) else rest
  }

  /** The state of a scope as its own event log knew it at the cutoff. */
  function PriorStateAt(s: Store, key: Key, cutoff: int): Option<Prior> {
    var e := LatestKnown(s.events, s.runs, key, cutoff);
    if e.None? then None
    else Some(Prior(key, e.value.definition, e.value.newLevel, e.value.run,
      LatestOccurrence(s.log.evidence, s.runs[e.value.run].decision.decisive)))
  }

  function PriorOf(key: Key, p: Projection): Prior {
    Prior(key, p.definition, p.level, p.run, p.lastMeaningful)
  }

  /** The policy only compares levels of one definition. */
  function UnderDefinition(prior: Option<Prior>, definition: Id): Option<Prior> {
    if prior.Some? && prior.value.definition == definition then prior else None
  }

  function Cached(s: Store, key: Key): Option<Projection> {
    if key in s.states then Some(s.states[key]) else None
  }

  /** The projection was evaluated at a later cutoff than the one asked for. */
  predicate IsReplay(s: Store, key: Key, cutoff: int) {
    key in s.states && s.states[key].lastEvaluated > cutoff
  }

  function PolicyPrior(s: Store, key: Key, definition: Id, cutoff: int): Option<Prior> {
    UnderDefinition(
      if IsReplay(s, key, cutoff) then PriorStateAt(s, key, cutoff)
      else if key in s.states then Some(PriorOf(key, s.states[key]))
      else None,
      definition)
  }

  // ---- One scope -------------------------------------------------------------------------------------

  function AssessScope(s: Store, d: Definition, key: Key, cutoff: int): Assessed {
    Assess(d, ScopeCriteria(d, key.dimension), ScopeFacts(s.log, key, cutoff))
  }

  ghost predicate Evaluable(s: Store, d: Definition, key: Key) {
    Sound(s) && d.id in s.catalog && s.catalog[d.id] == d && key.competency == d.competency
  }

  lemma {:induction false} ResultsKnowLevels(d: Definition, criteria: seq<Criterion>, facts: seq<Fact>)
    requires forall c :: c in criteria ==> c.level in LevelIds(d.levels)
    ensures Assess(d, criteria, facts).KnownLevels()
  {
    var a := Assess(d, criteria, facts);
    forall r | r in a.results ensures r.criterion.level in LevelIds(a.levels) {
      var i :| 0 <= i < |a.results| && a.results[i] == r;
      assert r.criterion == criteria[i];
    }
  }

  lemma {:induction false} PriorKnowsLevels(s: Store, d: Definition, key: Key, cutoff: int)
    requires Evaluable(s, d, key)
    ensures var p := PolicyPrior(s, key, d.id, cutoff); p.Some? && p.value.level.Some? ==>
      p.value.level.value in LevelIds(d.levels)
  {}

  lemma {:induction false} AssessmentKnowsLevels(s: Store, d: Definition, key: Key, cutoff: int)
    requires Evaluable(s, d, key)
    ensures AssessScope(s, d, key, cutoff).KnownLevels()
    ensures PolicyPrior(s, key, d.id, cutoff).Some? && PolicyPrior(s, key, d.id, cutoff).value.level.Some? ==>
      PolicyPrior(s, key, d.id, cutoff).value.level.value in LevelIds(d.levels)
  {
    ResultsKnowLevels(d, ScopeCriteria(d, key.dimension), ScopeFacts(s.log, key, cutoff));
    PriorKnowsLevels(s, d, key, cutoff);
  }

  function ScopeOutcome(s: Store, d: Definition, key: Key, cutoff: int): Outcome
    requires Evaluable(s, d, key)
  {
    AssessmentKnowsLevels(s, d, key, cutoff);
    var a := AssessScope(s, d, key, cutoff);
    ApplyDowngradePolicy(s.log, s.runs, s.events, PolicyPrior(s, key, d.id, cutoff), a.Candidate(), a, cutoff)
  }

  function RunFor(s: Store, d: Definition, key: Key, cutoff: int, stamp: int): Run
    requires Evaluable(s, d, key)
  {
    AssessmentKnowsLevels(s, d, key, cutoff);
    var a := AssessScope(s, d, key, cutoff);
    Run(key, d.id, cutoff, stamp, Payloads(a.facts), a.results, DecisionFor(a, ScopeOutcome(s, d, key, cutoff)))
  }

  /** The idempotency key: same scope, definition, cutoff, evidence and criterion results. */
  predicate SameInput(r: Run, q: Run) {
    r.key == q.key && r.definition == q.definition && r.cutoff == q.cutoff && r.evidence == q.evidence
      && r.results == q.results
  }

  predicate AlreadyRun(runs: seq<Run>, run: Run) { exists r :: r in runs && SameInput(r, run) }

  function LatestEvent(events: seq<Event>, key: Key): (r: Option<Event>)
    ensures r.Some? ==> r.value in events && r.value.key == key
    ensures forall e :: e in events && e.key == key ==> r.Some? && e.sequence <= r.value.sequence
  {
    if events == [] then None
    else
      var e := events[|events| - 1];
      var rest := LatestEvent(events[..|events| - 1], key);
      if e.key == key && (rest.None? || rest.value.sequence <= e.sequence) then Some(e) else rest
  }

  /** What the next event compares itself with: the projection, or failing that the latest event. */
  datatype Before = Before(
    definition: Option<Id>, level: Option<Id>, status: Option<Status>, confidence: Option<Confidence>, version: nat)

  function BeforeOf(previous: Option<Projection>, latest: Option<Event>): Before {
    if previous.Some? then
      var p := previous.value;
      Before(Some(p.definition), p.level, Some(p.status), Some(p.confidence), p.version)
    else if latest.Some? then
      var e := latest.value;
      Before(Some(e.definition), e.newLevel, Some(e.newStatus), Some(e.newConfidence), e.sequence)
    else Before(None, None, None, None, 0)
  }

  predicate Changed(previous: Option<Projection>, latest: Option<Event>, run: Run) {
    var b := BeforeOf(previous, latest);
    || b.definition != Some(run.definition)
    || b.level != run.decision.level
    || b.status != Some(run.decision.status)
    || b.confidence != Some(run.decision.confidence)
    || (previous.None? && latest.Some? && latest.value.decisive != run.decision.decisive)
    || (previous.Some? && previous.value.confidenceFacts != run.decision.confidenceFacts)
  }

  function CauseOf(previous: Option<Projection>, run: Run): EventCause {
    if run.decision.cause.Some? then Downgraded(run.decision.cause.value)
    else if previous.Some? && previous.value.definition != run.definition then DefinitionChanged
    else Evaluation
  }

  function EventFor(previous: Option<Projection>, latest: Option<Event>, run: Run, id: nat): Event {
    var b := BeforeOf(previous, latest);
    Event(run.key, run.definition, b.version + 1, b.level, run.decision.level, b.status, run.decision.status,
      b.confidence, run.decision.confidence, CauseOf(previous, run), run.decision.decisive, id, run.generatedAt)
  }

  function ProjectionFor(run: Run, id: nat, meaningful: Option<int>, version: nat): Projection {
    Projection(run.definition, run.decision.level, run.decision.status, run.decision.confidence,
      run.decision.confidenceFacts, id, run.evidence, run.cutoff, meaningful, version)
  }

  /** Append a run and, for a live evaluation, its event if anything changed; refresh the projection. */
  function Record(s: Store, run: Run, replay: bool, meaningful: Option<int>): Store {
    var id := |s.runs|;
    var s1 := s.(runs := s.runs + [run]);
    if replay then s1
    else
      var previous, latest := Cached(s, run.key), LatestEvent(s.events, run.key);
      var version := BeforeOf(previous, latest).version;
      if Changed(previous, latest, run) then
        s1.(events := s.events + [EventFor(previous, latest, run, id)],
            states := s.states[run.key := ProjectionFor(run, id, meaningful, version + 1)])
      else s1.(states := s.states[run.key := ProjectionFor(run, id, meaningful, version)])
  }

  /** A run whose inputs have been run before is not recorded again. */
  function Conclude(s: Store, run: Run, replay: bool, meaningful: Option<int>): Store {
    if AlreadyRun(s.runs, run) then s else Record(s, run, replay, meaningful)
  }

  /** When the facts of the scope last refreshed the selected level. */
  function LastMeaningful(s: Store, d: Definition, key: Key, cutoff: int): Option<int>
    requires Evaluable(s, d, key)
  {
    MeaningfulEvidenceAt(ScopeFacts(s.log, key, cutoff), ScopeCriteria(d, key.dimension),
      ScopeOutcome(s, d, key, cutoff).selected)
  }

  function EvaluateScope(s: Store, d: Definition, dimension: Option<Id>, cutoff: int, stamp: int): Store
    requires Evaluable(s, d, Key(d.competency, dimension))
  {
    var key := Key(d.competency, dimension);
    Conclude(s, RunFor(s, d, key, cutoff, stamp), IsReplay(s, key, cutoff), LastMeaningful(s, d, key, cutoff))
  }

  // ---- Reseeding ---------------------------------------------------------------------------------------

  /** The projection the latest event of a scope restores. */
  function Restored(runs: seq<Run>, evidence: seq<Evidence>, e: Event): Projection
    requires e.run < |runs|
  {
    var run := runs[e.run];
    Projection(
      e.definition, e.newLevel, e.newStatus, e.newConfidence, run.decision.confidenceFacts, e.run, run.evidence,
      run.cutoff, LatestOccurrence(evidence, run.decision.decisive), e.sequence)
  }
}

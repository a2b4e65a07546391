/**
 What the policy decides, on rows: when exactly it names each cause for a candidate below the level held before, which
 evidence it names, when it retains the level, and when it holds a rise back.
 */
module DowngradeCauses {
  import opened Base
  import opened Model
  import opened ActiveFacts
  import opened Criteria
  import opened Meaning
  import opened Levels
  import opened Downgrade
  import opened OccurrenceDictionary

  // ---- Withdrawn evidence -------------------------------------------------------------------------

  /** The evidence is retracted or invalidated by the cutoff. */
  ghost predicate IsWithdrawn(log: Log, id: Id, cutoff: int) {
    || (exists r :: r in log.retractions && r.evidenceId == id && r.createdAt <= cutoff)
    || (exists i :: i in log.invalidations && i.evidenceId == id && i.createdAt <= cutoff)
  }

  /** A link of the evidence that some result of the run reports as decisive is retracted by the cutoff. */
  ghost predicate IsUnlinked(log: Log, run: Run, id: Id, cutoff: int) {
    exists l, x, r ::
      && l in log.links && l.evidenceId == id && x in run.results && l.id in x.facts.decisiveLinks
      && r in log.linkRetractions && r.linkId == l.id && r.createdAt <= cutoff
  }

  /** Evidence that decided the run has since been withdrawn or unlinked. */
  ghost predicate SinceWithdrawn(log: Log, runs: seq<Run>, run: nat, id: Id, cutoff: int) {
    run < |runs|
    && ((id in runs[run].decision.decisive && IsWithdrawn(log, id, cutoff)) || IsUnlinked(log, runs[run], id, cutoff))
  }

  lemma {:induction false} UnlinkedMeans(log: Log, run: Run, id: Id, cutoff: int)
    ensures IsUnlinked(log, run, id, cutoff) <==> exists l ::
      l in log.links && l.evidenceId == id && l.id in DecisiveLinks(run.results) && LinkWithdrawn(log, l.id, cutoff)
  {
    if IsUnlinked(log, run, id, cutoff) {
      var l, x, r :|
        && l in log.links && l.evidenceId == id && x in run.results && l.id in x.facts.decisiveLinks
        && r in log.linkRetractions && r.linkId == l.id && r.createdAt <= cutoff;
      assert l.id in DecisiveLinks(run.results) && LinkWithdrawn(log, l.id, cutoff);
    }
  }

  lemma {:induction false} WithdrawnMeans(log: Log, runs: seq<Run>, run: nat, id: Id, cutoff: int)
    ensures id in WithdrawnDecisive(log, runs, run, cutoff) <==> SinceWithdrawn(log, runs, run, id, cutoff)
  {
    if run < |runs| { UnlinkedMeans(log, runs[run], id, cutoff); }
  }

  // ---- An authoritative reassessment --------------------------------------------------------------

  ghost predicate IsRequired(a: Assessed, level: Level, criterion: Id) {
    exists r :: RequiredAt(a, level, r) && r.criterion.id == criterion
  }

  /** The fact is about a required criterion of the level. */
  ghost predicate AboutRequired(a: Assessed, level: Level, f: Fact) {
    f.link.criterion.Some? && IsRequired(a, level, f.link.criterion.value)
  }

  /** A contradiction of a required criterion with the highest grades, its rubric, and authority over downgrades. */
  ghost predicate Overrules(a: Assessed, level: Level, f: Fact) {
    && f in a.facts && f.link.effect == Contradicts && f.evidence.authoritative && TopGrade(f.evidence)
    && f.evidence.provenance.downgradeAuthority != NoAuthority
    && (exists r :: RequiredAt(a, level, r) && f.link.criterion == Some(r.criterion.id)
          && NamesRubric(f.evidence.provenance, r.criterion))
  }

  /** Evidence that overrules the level is linked to the criterion. */
  ghost predicate Covered(a: Assessed, level: Level, criterion: Id) {
    exists f, g :: f in a.facts && f.link.criterion == Some(criterion) && Overrules(a, level, g)
      && g.evidence.id == f.evidence.id
  }

  /** Evidence that overrules the level covers all its required criteria, and all of it names one lower level. */
  ghost predicate AgreedLevel(a: Assessed, prior: Level, l: Level) {
    && l in a.levels && l.rank < prior.rank
    && (exists id: Id :: IsRequired(a, prior, id))
    && AllCovered(a, prior) && NamedByAll(a, prior, l)
  }

  ghost predicate AllCovered(a: Assessed, level: Level) {
    forall id: Id :: IsRequired(a, level, id) ==> Covered(a, level, id)
  }

  /** All of what overrules the level names `l`, and something does. */
  ghost predicate NamedByAll(a: Assessed, level: Level, l: Level) {
    && (exists g :: Overrules(a, level, g))
    && forall g :: Overrules(a, level, g) ==> g.evidence.provenance.maximumLevel == Some(l.id)
  }

  lemma {:induction false} RequiredMeans(a: Assessed, level: Level, id: Id)
    ensures id in RequiredIds(a, level) <==> IsRequired(a, level, id)
  {}

  lemma {:induction false} AboutRequiredMeans(a: Assessed, level: Level, f: Fact)
    ensures f.link.criterion.Some? && f.link.criterion.value in RequiredIds(a, level) <==> AboutRequired(a, level, f)
  {
    if f.link.criterion.Some? { RequiredMeans(a, level, f.link.criterion.value); }
  }

  lemma {:induction false} RubricMeans(p: Provenance, c: Criterion)
    ensures RubricBound(p, c) <==> NamesRubric(p, c)
  {}

  lemma {:induction false} OneResult(a: Assessed, r: CriterionResult, x: CriterionResult)
    requires a.Valid() && r in a.results && x in a.results && r.criterion.id == x.criterion.id
    ensures r == x
  {
    var i :| 0 <= i < |a.results| && a.results[i] == r;
    var j :| 0 <= j < |a.results| && a.results[j] == x;
    assert i == j;
  }

  lemma {:induction false} OverrulingMeans(a: Assessed, level: Level, f: Fact)
    requires a.Valid()
    ensures f in AuthoritativeContradictions(a, RequiredIds(a, level)) <==> Overrules(a, level, f)
  {
    AboutRequiredMeans(a, level, f);
    forall r | r in a.results ensures RubricBound(f.evidence.provenance, r.criterion) <==>
      NamesRubric(f.evidence.provenance, r.criterion) {
      RubricMeans(f.evidence.provenance, r.criterion);
    }
    if IsAuthoritativeContradiction(a, f, RequiredIds(a, level)) {
      var r :| RequiredAt(a, level, r) && r.criterion.id == f.link.criterion.value;
      var x :| x in a.results && Some(x.criterion.id) == f.link.criterion
        && RubricBound(f.evidence.provenance, x.criterion);
      OneResult(a, r, x);
    }
  }

  lemma {:induction false} CoverageMeans(a: Assessed, level: Level, id: Id)
    requires a.Valid()
    ensures Some(id) in Coverage(a, RequiredIds(a, level)) <==> Covered(a, level, id)
  {
    var authoritative := AuthoritativeContradictions(a, RequiredIds(a, level));
    forall g ensures g in authoritative <==> Overrules(a, level, g) { OverrulingMeans(a, level, g); }
    if Covered(a, level, id) {
      var f, g :| f in a.facts && f.link.criterion == Some(id) && Overrules(a, level, g)
        && g.evidence.id == f.evidence.id;
      assert g in authoritative && f.evidence.id in EvidenceIds(authoritative);
    }
  }

  lemma {:induction false} CoveredAllMeans(a: Assessed, level: Level)
    requires a.Valid()
    ensures CoversAll(RequiredIds(a, level), Coverage(a, RequiredIds(a, level))) <==> AllCovered(a, level)
  {
    forall id: Id
      ensures Some(id) in Coverage(a, RequiredIds(a, level)) <==> Covered(a, level, id)
      ensures id in RequiredIds(a, level) <==> IsRequired(a, level, id)
    {
      CoverageMeans(a, level, id);
      RequiredMeans(a, level, id);
    }
  }

  lemma {:induction false} DeclarationMeans(a: Assessed, level: Level, l: Level)
    requires a.Valid()
    ensures DeclaredLevels(a, RequiredIds(a, level)) == {Some(l.id)} <==> NamedByAll(a, level, l)
  {
    var required := RequiredIds(a, level);
    var authoritative := AuthoritativeContradictions(a, required);
    forall g ensures g in authoritative <==> Overrules(a, level, g) { OverrulingMeans(a, level, g); }
    OneDeclared(a, required, l);
    if NamedByAll(a, level, l) {
      var g :| Overrules(a, level, g);
      assert g in authoritative;
    }
  }

  lemma {:induction false} OneDeclared(a: Assessed, required: set<Id>, l: Level)
    ensures var authoritative := AuthoritativeContradictions(a, required);
      DeclaredLevels(a, required) == {Some(l.id)} <==>
        authoritative != [] && forall g :: g in authoritative ==> g.evidence.provenance.maximumLevel == Some(l.id)
  {
    var authoritative, declared := AuthoritativeContradictions(a, required), DeclaredLevels(a, required);
    forall g | g in authoritative ensures g.evidence.provenance.maximumLevel in declared {}
    if authoritative != [] { assert authoritative[0] in authoritative; }
    if declared == {Some(l.id)} { assert Some(l.id) in declared; }
  }

  lemma {:induction false} OnlyDeclaredIs(levels: seq<Level>, declared: set<Option<Id>>, l: Level)
    requires l in levels && declared == {Some(l.id)}
    requires forall i, j :: 0 <= i < j < |levels| ==> levels[i].id != levels[j].id
    ensures OnlyDeclared(levels, declared) == Some(l)
  {
    if declared == {Some(levels[0].id)} {
      assert Some(levels[0].id) in {Some(l.id)};
    } else {
      assert levels[0] != l;
      assert l in levels[1..];
      OnlyDeclaredIs(levels[1..], declared, l);
    }
  }

  lemma {:induction false} OnlyDeclaredNames(levels: seq<Level>, declared: set<Option<Id>>)
    requires OnlyDeclared(levels, declared).Some?
    ensures declared == {Some(OnlyDeclared(levels, declared).value.id)}
  {
    if declared != {Some(levels[0].id)} { OnlyDeclaredNames(levels[1..], declared); }
  }

  lemma {:induction false} SomethingRequired(a: Assessed, level: Level)
    ensures RequiredIds(a, level) != {} <==> exists id: Id :: IsRequired(a, level, id)
  {
    forall id: Id ensures id in RequiredIds(a, level) <==> IsRequired(a, level, id) { RequiredMeans(a, level, id); }
    if RequiredIds(a, level) != {} { var id :| id in RequiredIds(a, level); }
  }

  lemma {:induction false} AgreementReassesses(a: Assessed, prior: Level, l: Level)
    requires a.Valid() && AgreedLevel(a, prior, l)
    ensures Reassessed(a, prior) == Some(l) && ReassessedLower(a, prior)
  {
    SomethingRequired(a, prior);
    CoveredAllMeans(a, prior);
    DeclarationMeans(a, prior, l);
    OnlyDeclaredIs(a.levels, DeclaredLevels(a, RequiredIds(a, prior)), l);
  }

  lemma {:induction false} ReassessmentAgrees(a: Assessed, prior: Level)
    requires a.Valid() && ReassessedLower(a, prior)
    ensures AgreedLevel(a, prior, Reassessed(a, prior).value)
  {
    SomethingRequired(a, prior);
    CoveredAllMeans(a, prior);
    OnlyDeclaredNames(a.levels, DeclaredLevels(a, RequiredIds(a, prior)));
    DeclarationMeans(a, prior, Reassessed(a, prior).value);
  }

  ghost predicate Agreed(a: Assessed, prior: Level) { exists l :: AgreedLevel(a, prior, l) }

  /** A reassessment is an agreed lower level, and there is no other. */
  lemma {:induction false} AgreedMeans(a: Assessed, prior: Level)
    requires a.Valid()
    ensures Agreed(a, prior) <==> ReassessedLower(a, prior)
    ensures forall l :: AgreedLevel(a, prior, l) ==> Reassessed(a, prior) == Some(l)
  {
    if ReassessedLower(a, prior) { ReassessmentAgrees(a, prior); }
    forall l | AgreedLevel(a, prior, l) ensures ReassessedLower(a, prior) && Reassessed(a, prior) == Some(l) {
      AgreementReassesses(a, prior, l);
    }
  }

  // ---- A sustained contradiction ------------------------------------------------------------------

  ghost predicate IsSince(t: int, bound: Option<int>) { bound.Some? ==> bound.value < t }

  /** A solid contradiction of a required criterion since the last meaningful evidence and the last used one. */
  ghost function IsFresh(a: Assessed, prior: Level, lastMeaningful: Option<int>, lastUsed: Option<int>): Fact -> bool {
    f =>
      && SolidContradiction(f) && AboutRequired(a, prior, f)
      && IsSince(f.evidence.occurredAt.value, lastMeaningful) && IsSince(f.evidence.occurredAt.value, lastUsed)
  }

  ghost predicate Fresh(a: Assessed, prior: Level, lastMeaningful: Option<int>, lastUsed: Option<int>, f: Fact) {
    f in a.facts && IsFresh(a, prior, lastMeaningful, lastUsed)(f)
  }

  /** Fresh contradictions of at least two occurrences, and an independent one that is the last of its occurrence. */
  ghost predicate Sustains(a: Assessed, prior: Level, lastMeaningful: Option<int>, lastUsed: Option<int>) {
    && (exists f, g :: Fresh(a, prior, lastMeaningful, lastUsed, f) && Fresh(a, prior, lastMeaningful, lastUsed, g)
          && OccurrenceOf(f.evidence) != OccurrenceOf(g.evidence))
    && exists f ::
      LastOfOccurrence(a.facts, IsFresh(a, prior, lastMeaningful, lastUsed), f)
      && f.evidence.independence == Independent
  }

  lemma {:induction false} FreshMeans(
      a: Assessed, prior: Level, lastMeaningful: Option<int>, lastUsed: Option<int>, f: Fact)
    ensures IsFreshContradiction(f, RequiredIds(a, prior), lastMeaningful, lastUsed) <==>
      IsFresh(a, prior, lastMeaningful, lastUsed)(f)
  {
    AboutRequiredMeans(a, prior, f);
    GradesMean(f, None);
  }

  lemma {:induction false} FreshAreKept(a: Assessed, prior: Level, lastMeaningful: Option<int>, lastUsed: Option<int>)
    ensures FreshContradictions(a, RequiredIds(a, prior), lastMeaningful, lastUsed)
      == ByOccurrence(Filter(a.facts, IsFresh(a, prior, lastMeaningful, lastUsed)))
  {
    var required := RequiredIds(a, prior);
    forall f
      ensures IsFreshContradiction(f, required, lastMeaningful, lastUsed) ==
        IsFresh(a, prior, lastMeaningful, lastUsed)(f)
    {
      FreshMeans(a, prior, lastMeaningful, lastUsed, f);
    }
    FilterAgrees(a.facts, (f: Fact) => IsFreshContradiction(f, required, lastMeaningful, lastUsed),
      IsFresh(a, prior, lastMeaningful, lastUsed));
  }

  lemma {:induction false} TwoRepresentatives(reps: seq<Fact>, f: Fact, g: Fact)
    requires f in reps && g in reps && f != g
    ensures |reps| >= 2
  {}

  /** The contradictions named are the last fresh ones of their occurrences. */
  lemma {:induction false} FreshAreLast(
      a: Assessed, prior: Level, lastMeaningful: Option<int>, lastUsed: Option<int>, f: Fact)
    ensures f in FreshContradictions(a, RequiredIds(a, prior), lastMeaningful, lastUsed) <==>
      LastOfOccurrence(a.facts, IsFresh(a, prior, lastMeaningful, lastUsed), f)
  {
    FreshAreKept(a, prior, lastMeaningful, lastUsed);
    DictionaryKeepsLast(a.facts, IsFresh(a, prior, lastMeaningful, lastUsed), f);
  }

  lemma {:induction false} SustainedHasBoth(
      a: Assessed, prior: Level, lastMeaningful: Option<int>, lastUsed: Option<int>)
    requires SustainedContradictions(FreshContradictions(a, RequiredIds(a, prior), lastMeaningful, lastUsed))
    ensures Sustains(a, prior, lastMeaningful, lastUsed)
  {
    var recent := FreshContradictions(a, RequiredIds(a, prior), lastMeaningful, lastUsed);
    assert recent[0] in recent && recent[1] in recent;
    FreshAreLast(a, prior, lastMeaningful, lastUsed, recent[0]);
    FreshAreLast(a, prior, lastMeaningful, lastUsed, recent[1]);
    assert Fresh(a, prior, lastMeaningful, lastUsed, recent[0]) && Fresh(a, prior, lastMeaningful, lastUsed, recent[1]);
    var f :| f in recent && f.evidence.independence == Independent;
    FreshAreLast(a, prior, lastMeaningful, lastUsed, f);
  }

  lemma {:induction false} FreshIsRepresented(
      a: Assessed, prior: Level, lastMeaningful: Option<int>, lastUsed: Option<int>, f: Fact)
    returns (g: Fact)
    requires Fresh(a, prior, lastMeaningful, lastUsed, f)
    ensures g in FreshContradictions(a, RequiredIds(a, prior), lastMeaningful, lastUsed)
    ensures OccurrenceOf(g.evidence) == OccurrenceOf(f.evidence)
  {
    FreshAreKept(a, prior, lastMeaningful, lastUsed);
    g := RepresentativeOf(Filter(a.facts, IsFresh(a, prior, lastMeaningful, lastUsed)), f);
  }

  lemma {:induction false} BothSustain(a: Assessed, prior: Level, lastMeaningful: Option<int>, lastUsed: Option<int>)
    requires Sustains(a, prior, lastMeaningful, lastUsed)
    ensures SustainedContradictions(FreshContradictions(a, RequiredIds(a, prior), lastMeaningful, lastUsed))
  {
    var recent := FreshContradictions(a, RequiredIds(a, prior), lastMeaningful, lastUsed);
    var f, g :| Fresh(a, prior, lastMeaningful, lastUsed, f) && Fresh(a, prior, lastMeaningful, lastUsed, g)
      && OccurrenceOf(f.evidence) != OccurrenceOf(g.evidence);
    var f' := FreshIsRepresented(a, prior, lastMeaningful, lastUsed, f);
    var g' := FreshIsRepresented(a, prior, lastMeaningful, lastUsed, g);
    TwoRepresentatives(recent, f', g');
    var h :| LastOfOccurrence(a.facts, IsFresh(a, prior, lastMeaningful, lastUsed), h)
      && h.evidence.independence == Independent;
    FreshAreLast(a, prior, lastMeaningful, lastUsed, h);
  }

  lemma {:induction false} SustainedMeans(a: Assessed, prior: Level, lastMeaningful: Option<int>, lastUsed: Option<int>)
    ensures SustainedContradictions(FreshContradictions(a, RequiredIds(a, prior), lastMeaningful, lastUsed))
      <==> Sustains(a, prior, lastMeaningful, lastUsed)
  {
    if Sustains(a, prior, lastMeaningful, lastUsed) {
      BothSustain(a, prior, lastMeaningful, lastUsed);
    } else if SustainedContradictions(FreshContradictions(a, RequiredIds(a, prior), lastMeaningful, lastUsed)) {
      SustainedHasBoth(a, prior, lastMeaningful, lastUsed);
    }
  }

  // ---- The sustained downgrade before -------------------------------------------------------------

  ghost predicate WasSustained(events: seq<Event>, key: Key, cutoff: int, e: Event) {
    e in events && e.key == key && e.cause == Downgraded(SustainedContradiction) && e.createdAt <= cutoff
  }

  /** The sustained downgrade of the scope with the highest number by the cutoff. */
  ghost predicate LastDowngrade(events: seq<Event>, key: Key, cutoff: int, e: Event) {
    && WasSustained(events, key, cutoff, e)
    && forall f :: WasSustained(events, key, cutoff, f) ==> f.sequence <= e.sequence
  }

  ghost predicate WasDowngraded(events: seq<Event>, key: Key, cutoff: int) {
    exists e :: WasSustained(events, key, cutoff, e)
  }

  /** When the latest evidence of the scope's last sustained downgrade occurred. */
  ghost predicate IsLastUsed(log: Log, events: seq<Event>, key: Key, cutoff: int, t: Option<int>) {
    if WasDowngraded(events, key, cutoff) then
      exists e :: LastDowngrade(events, key, cutoff, e) && IsLatest(log, e.decisive, t)
    else t.None?
  }

  lemma {:induction false} HistoryIsRead(log: Log, runs: seq<Run>, events: seq<Event>, p: Prior, cutoff: int)
    ensures var h := ReadHistory(log, runs, events, p, cutoff);
      && (h.downgraded <==> WasDowngraded(events, p.key, cutoff))
      && IsLastUsed(log, events, p.key, cutoff, h.lastUsed)
      && (forall id :: id in h.withdrawn <==> SinceWithdrawn(log, runs, p.run, id, cutoff))
  {
    var e := LastSustained(events, p.key, cutoff);
    forall f ensures WasSustained(events, p.key, cutoff, f) <==> f in events && IsSustained(f, p.key, cutoff) {}
    if e.Some? { assert LastDowngrade(events, p.key, cutoff, e.value); }
    forall id ensures id in WithdrawnDecisive(log, runs, p.run, cutoff) <==>
      SinceWithdrawn(log, runs, p.run, id, cutoff) {
      WithdrawnMeans(log, runs, p.run, id, cutoff);
    }
  }

  // ---- The outcome --------------------------------------------------------------------------------

  ghost predicate AnyWithdrawn(log: Log, runs: seq<Run>, run: nat, cutoff: int) {
    exists id :: SinceWithdrawn(log, runs, run, id, cutoff)
  }

  /** The level of rank `rank`, and none if the scale lacks it. */
  ghost predicate IsAtRank(levels: seq<Level>, rank: int, selected: Option<Level>) {
    if exists l :: l in levels && l.rank == rank then
      selected.Some? && selected.value in levels && selected.value.rank == rank
    else selected.None?
  }

  /** The rank below, and rank 0 below itself. */
  ghost predicate IsNextBelow(rank: int, lower: int) { lower >= 0 && (lower == rank - 1 || (rank <= 0 && lower == 0)) }

  /** The agreed level, on the evidence that overrules. */
  ghost predicate Reassesses(a: Assessed, prior: Level, o: Outcome) {
    && o.cause == Some(AuthoritativeReassessment) && !o.retained
    && (forall l :: AgreedLevel(a, prior, l) ==> o.selected == Some(l))
    && (forall id :: id in o.evidence <==> exists g :: Overrules(a, prior, g) && g.evidence.id == id)
  }

  /** One rank lower, on the last fresh contradiction of every occurrence. */
  ghost predicate Sustained(
      a: Assessed, prior: Level, lastMeaningful: Option<int>, used: Option<int>, o: Outcome)
  {
    && o.cause == Some(SustainedContradiction) && !o.retained
    && (exists lower :: IsNextBelow(prior.rank, lower) && IsAtRank(a.levels, lower, o.selected))
    && (forall id :: id in o.evidence <==> exists f ::
         LastOfOccurrence(a.facts, IsFresh(a, prior, lastMeaningful, used), f) && f.evidence.id == id)
  }

  /** The outcome for a candidate below the prior level: one of four, in this order. */
  ghost predicate Falls(
      log: Log, runs: seq<Run>, events: seq<Event>, previous: Prior, prior: Level, candidate: Option<Level>,
      a: Assessed, cutoff: int, used: Option<int>, o: Outcome)
  {
    if AnyWithdrawn(log, runs, previous.run, cutoff) then
      && o.cause == Some(InvalidationCorrection) && o.selected == candidate && !o.retained
      && (forall id :: id in o.evidence <==> SinceWithdrawn(log, runs, previous.run, id, cutoff))
    else if Agreed(a, prior) then Reassesses(a, prior, o)
    else if Sustains(a, prior, previous.lastMeaningful, used) then
      Sustained(a, prior, previous.lastMeaningful, used, o)
    else o.cause.None? && o.retained && o.selected == Some(prior) && o.evidence == {}
  }

  /** Support that occurred after `used`. */
  ghost predicate SupportedSince(a: Assessed, used: Option<int>) {
    exists f :: f in a.facts && f.link.effect == Supports && f.evidence.occurredAt.Some?
      && IsSince(f.evidence.occurredAt.value, used)
  }

  /** The outcome for a candidate at or above the prior level: it is held back after a sustained downgrade. */
  ghost predicate Rises(
      events: seq<Event>, previous: Prior, prior: Level, candidate: Option<Level>, a: Assessed, cutoff: int,
      used: Option<int>, o: Outcome)
  {
    var held := WasDowngraded(events, previous.key, cutoff) && !SupportedSince(a, used);
    && (o.retained <==> held) && o.selected == (if held then Some(prior) else candidate)
    && o.cause.None? && o.evidence == {}
  }

  /** What the policy decides, from rows alone. */
  ghost predicate Decided(
      log: Log, runs: seq<Run>, events: seq<Event>, previous: Prior, candidate: Option<Level>, a: Assessed, cutoff: int,
      o: Outcome)
  {
    exists prior, used ::
      && prior in a.levels && previous.level == Some(prior.id)
      && IsLastUsed(log, events, previous.key, cutoff, used)
      && if candidate.Some? && prior.rank <= candidate.value.rank
         then Rises(events, previous, prior, candidate, a, cutoff, used, o)
         else Falls(log, runs, events, previous, prior, candidate, a, cutoff, used, o)
  }

  /** Without a level before there is nothing to hold on to. */
  ghost predicate PolicyDecides(
      log: Log, runs: seq<Run>, events: seq<Event>, previous: Option<Prior>, candidate: Option<Level>, a: Assessed,
      cutoff: int, o: Outcome)
  {
    if previous == None || previous.value.level == None then
      o.selected == candidate && o.cause.None? && o.evidence == {} && !o.retained
    else Decided(log, runs, events, previous.value, candidate, a, cutoff, o)
  }

  lemma {:induction false} RankBelow(levels: seq<Level>, rank: int)
    ensures IsNextBelow(rank, OneBelow(rank)) && IsAtRank(levels, OneBelow(rank), LevelAtRank(levels, OneBelow(rank)))
  {}

  lemma {:induction false} OverruledEvidence(a: Assessed, prior: Level, id: Id)
    requires a.Valid()
    ensures id in EvidenceIds(AuthoritativeContradictions(a, RequiredIds(a, prior))) <==>
      exists g :: Overrules(a, prior, g) && g.evidence.id == id
  {
    forall g ensures g in AuthoritativeContradictions(a, RequiredIds(a, prior)) <==> Overrules(a, prior, g) {
      OverrulingMeans(a, prior, g);
    }
  }

  lemma {:induction false} SustainingEvidence(
      a: Assessed, prior: Level, lastMeaningful: Option<int>, lastUsed: Option<int>, id: Id)
    ensures id in EvidenceIds(FreshContradictions(a, RequiredIds(a, prior), lastMeaningful, lastUsed)) <==>
      exists f :: LastOfOccurrence(a.facts, IsFresh(a, prior, lastMeaningful, lastUsed), f) && f.evidence.id == id
  {
    forall f
      ensures f in FreshContradictions(a, RequiredIds(a, prior), lastMeaningful, lastUsed) <==>
        LastOfOccurrence(a.facts, IsFresh(a, prior, lastMeaningful, lastUsed), f)
    {
      FreshAreLast(a, prior, lastMeaningful, lastUsed, f);
    }
  }

  lemma {:induction false} NothingWithdrawn(
      log: Log, runs: seq<Run>, events: seq<Event>, previous: Prior, cutoff: int)
    ensures ReadHistory(log, runs, events, previous, cutoff).withdrawn != {} <==>
      AnyWithdrawn(log, runs, previous.run, cutoff)
  {
    HistoryIsRead(log, runs, events, previous, cutoff);
    if ReadHistory(log, runs, events, previous, cutoff).withdrawn != {} {
      var id :| id in ReadHistory(log, runs, events, previous, cutoff).withdrawn;
    }
  }

  lemma {:induction false} ReassessmentIsExact(a: Assessed, prior: Level)
    requires a.Valid() && ReassessedLower(a, prior)
    ensures Reassesses(a, prior, Outcome(Reassessed(a, prior), Some(AuthoritativeReassessment),
      EvidenceIds(AuthoritativeContradictions(a, RequiredIds(a, prior))), false))
  {
    AgreedMeans(a, prior);
    forall id: Id
      ensures id in EvidenceIds(AuthoritativeContradictions(a, RequiredIds(a, prior))) <==>
        exists g :: Overrules(a, prior, g) && g.evidence.id == id
    {
      OverruledEvidence(a, prior, id);
    }
  }

  lemma {:induction false} SustainedIsExact(
      a: Assessed, prior: Level, lastMeaningful: Option<int>, used: Option<int>)
    ensures Sustained(a, prior, lastMeaningful, used,
      Outcome(LevelAtRank(a.levels, OneBelow(prior.rank)), Some(SustainedContradiction),
        EvidenceIds(FreshContradictions(a, RequiredIds(a, prior), lastMeaningful, used)), false))
  {
    RankBelow(a.levels, prior.rank);
    forall id: Id
      ensures id in EvidenceIds(FreshContradictions(a, RequiredIds(a, prior), lastMeaningful, used)) <==>
        exists f :: LastOfOccurrence(a.facts, IsFresh(a, prior, lastMeaningful, used), f) && f.evidence.id == id
    {
      SustainingEvidence(a, prior, lastMeaningful, used, id);
    }
  }

  lemma {:induction false} FallIsExact(
      log: Log, runs: seq<Run>, events: seq<Event>, previous: Prior, prior: Level, candidate: Option<Level>,
      a: Assessed, cutoff: int)
    requires a.Valid()
    ensures var h := ReadHistory(log, runs, events, previous, cutoff);
      Falls(log, runs, events, previous, prior, candidate, a, cutoff, h.lastUsed,
        FallOrRetain(h, previous.lastMeaningful, prior, candidate, a))
  {
    var h := ReadHistory(log, runs, events, previous, cutoff);
    HistoryIsRead(log, runs, events, previous, cutoff);
    NothingWithdrawn(log, runs, events, previous, cutoff);
    AgreedMeans(a, prior);
    SustainedMeans(a, prior, previous.lastMeaningful, h.lastUsed);
    SustainedIsExact(a, prior, previous.lastMeaningful, h.lastUsed);
    if ReassessedLower(a, prior) { ReassessmentIsExact(a, prior); }
  }

  lemma {:induction false} RiseIsExact(
      log: Log, runs: seq<Run>, events: seq<Event>, previous: Prior, prior: Level, candidate: Option<Level>,
      a: Assessed, cutoff: int)
    ensures var h := ReadHistory(log, runs, events, previous, cutoff);
      Rises(events, previous, prior, candidate, a, cutoff, h.lastUsed, RiseOrHold(h, prior, candidate, a))
  {
    HistoryIsRead(log, runs, events, previous, cutoff);
  }

  /**
   The policy on rows.  Below the level held before: withdrawn evidence hands the level to the candidate; otherwise an
   agreed authoritative reassessment decides; otherwise a sustained contradiction; and with none of them the level is
   retained.  At or above it the candidate is taken, unless a sustained downgrade waits for support.  In every case the
   evidence named is exactly that.
   */
  lemma {:induction false} CausesAreExact(
      log: Log, runs: seq<Run>, events: seq<Event>, previous: Option<Prior>, candidate: Option<Level>, a: Assessed,
      cutoff: int)
    requires a.Valid()
    requires previous.Some? && previous.value.level.Some? ==> previous.value.level.value in LevelIds(a.levels)
    ensures PolicyDecides(log, runs, events, previous, candidate, a, cutoff,
      ApplyDowngradePolicy(log, runs, events, previous, candidate, a, cutoff))
  {
    if previous.Some? && previous.value.level.Some? {
      var prior := LevelById(a.levels, previous.value.level.value);
      HistoryIsRead(log, runs, events, previous.value, cutoff);
      FallIsExact(log, runs, events, previous.value, prior, candidate, a, cutoff);
      RiseIsExact(log, runs, events, previous.value, prior, candidate, a, cutoff);
    }
  }
}

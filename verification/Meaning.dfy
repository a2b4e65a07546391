/** What the grades of evidence mean, in terms of its columns: the vocabulary the laws are stated in. */
module Meaning {
  import opened Base
  import opened Model
  import opened ActiveFacts
  import opened Criteria

  /** Of at least moderate strength, from a source of at least medium confidence. */
  ghost predicate Solid(e: Evidence) {
    e.strength in {Moderate, Strong} && e.sourceConfidence in {Confidence.Medium, Confidence.High}
  }

  ghost predicate Exposes(f: Fact) { f.link.effect == Supports && f.evidence.strength != UnknownStrength }

  ghost predicate Performs(f: Fact) {
    f.link.effect == Supports && Solid(f.evidence) && f.evidence.independence in {Guided, Assisted, Independent}
  }

  ghost predicate PerformsAlone(f: Fact) {
    f.link.effect == Supports && Solid(f.evidence) && f.evidence.independence == Independent
  }

  ghost predicate PerformsStrongly(f: Fact) { PerformsAlone(f) && f.evidence.strength == Strong }

  /** Assessed with the highest grades. */
  ghost predicate TopGrade(e: Evidence) {
    && (e.evidenceType == EvidenceType.Assessment || e.evidenceType == EvidenceType.Verification)
    && e.strength == Strong && e.sourceConfidence == Confidence.High && e.independence == Independent
  }

  /** The provenance names the criterion's rubric, in its list of references or as its only one. */
  ghost predicate NamesRubric(p: Provenance, c: Criterion) {
    match c.rubric
    case None => false
    case Some(rubric) =>
      || (c.id, rubric) in p.rubricReferences.Items
      || (p.rubricCriterion == Some(c.id) && p.rubricReference == Some(rubric))
  }

  ghost predicate Certifies(f: Fact, c: Option<Criterion>) {
    f.link.effect == Supports && TopGrade(f.evidence) && c.Some? && NamesRubric(f.evidence.provenance, c.value)
  }

  /** A dated contradiction of at least moderate strength and medium confidence. */
  ghost predicate SolidContradiction(f: Fact) {
    f.link.effect == Contradicts && Solid(f.evidence) && f.evidence.occurredAt.Some?
  }

  ghost predicate DatedAfter(e: Evidence, t: int) { e.occurredAt.Some? && t < e.occurredAt.value }

  /** The latest time the named evidence occurred, if any of it is dated. */
  ghost predicate IsLatest(log: Log, ids: set<Id>, t: Option<int>) {
    && (forall e :: e in log.evidence && e.id in ids && e.occurredAt.Some? ==>
         t.Some? && e.occurredAt.value <= t.value)
    && (t.Some? ==> exists e :: e in log.evidence && e.id in ids && e.occurredAt == t)
  }

  /** The grades the engine compares are these. */
  lemma {:induction false} GradesMean(f: Fact, c: Option<Criterion>)
    ensures IsWeakSupport(f) <==> Exposes(f)
    ensures IsModerateSupport(f) <==> Performs(f)
    ensures IsIndependentSupport(f) <==> PerformsAlone(f)
    ensures IsStrongIndependentSupport(f) <==> PerformsStrongly(f)
    ensures IsAuthoritativeSupport(f, c) <==> Certifies(f, c)
    ensures IsContradiction(f) && Meaningful(f.evidence) && f.evidence.occurredAt.Some? <==> SolidContradiction(f)
  {}

  // ---- Occurrences and contexts -------------------------------------------------------------------

  ghost predicate Given(s: Option<string>) { s != None && s != Some("") }

  ghost predicate FromReview(e: Evidence) {
    e.sourceType == "assessment_review" && Given(e.provenance.assessmentSession)
  }

  /** One assessment session, or failing that one artifact, or failing that one source at one time. */
  ghost predicate OneOccurrence(e: Evidence, g: Evidence) {
    || (FromReview(e) && FromReview(g) && e.provenance.assessmentSession == g.provenance.assessmentSession)
    || (!FromReview(e) && !FromReview(g) && Given(e.artifactHash) && e.artifactHash == g.artifactHash)
    || (!FromReview(e) && !FromReview(g) && !Given(e.artifactHash) && !Given(g.artifactHash)
        && e.sourceType == g.sourceType && e.sourceId == g.sourceId && e.occurredAt == g.occurredAt)
  }

  /** Two pieces of evidence are of one occurrence exactly when they share the first of these they can share. */
  lemma {:induction false} OccurrenceIs(e: Evidence, g: Evidence)
    ensures OccurrenceOf(e) == OccurrenceOf(g) <==> OneOccurrence(e, g)
  {}

  /** The context is the one recorded, or failing that the activity; without either it is not known. */
  lemma {:induction false} ContextIs(e: Evidence, context: string)
    ensures ContextOf(e) == context <==>
      || (Given(e.provenance.context) && e.provenance.context == Some(context))
      || (!Given(e.provenance.context) && Given(e.provenance.activity) && e.provenance.activity == Some(context))
      || (!Given(e.provenance.context) && !Given(e.provenance.activity) && context == "legacy_unknown")
  {}
}

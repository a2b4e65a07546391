/** What one criterion's result says: its state, the evidence that decides it, and what is counted of its facts. */
module CriterionLaws {
  import opened Base
  import opened Model
  import opened ActiveFacts
  import opened Criteria
  import opened Meaning
  import opened RuleEvidence

  /** The facts linked to the criterion, in their order. */
  ghost function Linked(c: Criterion, facts: seq<Fact>): (r: seq<Fact>)
    ensures forall f :: f in r <==> f in facts && f.link.criterion == Some(c.id)
  {
    Filter(facts, (f: Fact) => f.link.criterion == Some(c.id))
  }

  lemma {:induction false} LinkedAreRelevant(c: Criterion, facts: seq<Fact>)
    ensures CriterionFactsOf(c, facts) == Linked(c, facts)
  {
    FilterAgrees(facts, (f: Fact) => f.link.criterion == Some(c.id), (f: Fact) => f.link.criterion == Some(c.id));
  }

  ghost predicate Supporting(f: Fact) { f.link.effect == Supports }

  /** A solid contradiction of the criterion, later than every dated fact of the named evidence. */
  ghost predicate Outlives(c: Criterion, facts: seq<Fact>, named: set<Id>, f: Fact) {
    && f in facts && f.link.criterion == Some(c.id) && SolidContradiction(f)
    && forall g :: g in facts && g.link.criterion == Some(c.id) && g.evidence.id in named ==>
         g.evidence.occurredAt.Some? ==> DatedAfter(f.evidence, g.evidence.occurredAt.value)
  }

  lemma {:induction false} UnresolvedMeans(c: Criterion, facts: seq<Fact>, named: set<Id>, f: Fact)
    ensures var relevant := CriterionFactsOf(c, facts);
      f in relevant && Unresolved(f, LatestOccurrence(EvidenceOf(relevant), named)) <==> Outlives(c, facts, named, f)
  {
    var relevant := CriterionFactsOf(c, facts);
    var latest := LatestOccurrence(EvidenceOf(relevant), named);
    GradesMean(f, None);
    if Outlives(c, facts, named, f) {
      if latest.Some? {
        var e :| e in EvidenceOf(relevant) && e.id in named && e.occurredAt == latest;
        var g :| g in relevant && g.evidence == e;
        assert DatedAfter(f.evidence, g.evidence.occurredAt.value);
      }
    } else if f in relevant && Unresolved(f, latest) {
      forall g | g in relevant && g.evidence.id in named && g.evidence.occurredAt.Some?
        ensures DatedAfter(f.evidence, g.evidence.occurredAt.value)
      {
        assert g.evidence in EvidenceOf(relevant);
      }
    }
  }

  /**
   A criterion's result names the evidence its rule names and the contradictions that outlive it, and its state follows
   from whether the rule is met, from those contradictions, and from whether there is any support or any attempt.
   */
  lemma {:induction false} StateMeans(c: Criterion, facts: seq<Fact>)
    ensures var r := EvaluateCriterion(c, facts);
      && Names(c.rule, Linked(c, facts), Some(c), r.supports)
      && (forall id :: id in r.contradictions <==> exists f :: Outlives(c, facts, r.supports, f) && f.evidence.id == id)
      && (r.state == Demonstrated <==> Meets(c.rule, Linked(c, facts), Some(c)) && r.contradictions == {})
      && (r.state == Contradicted <==> Meets(c.rule, Linked(c, facts), Some(c)) && r.contradictions != {})
      && (r.state == PartiallyDemonstrated <==>
           !Meets(c.rule, Linked(c, facts), Some(c)) && AnyFact(Linked(c, facts), Supporting))
      && (r.state == NotDemonstrated <==>
           && !Meets(c.rule, Linked(c, facts), Some(c)) && !AnyFact(Linked(c, facts), Supporting)
           && AnyFact(Linked(c, facts), Attempts))
  {
    LinkedAreRelevant(c, facts);
    VerdictIsExact(c.rule, Linked(c, facts), Some(c));
    ContradictionsMean(c, facts);
    QualitiesMean(c.rule);
    StateFollows(c, facts);
  }

  lemma {:induction false} StateFollows(c: Criterion, facts: seq<Fact>)
    ensures var r, relevant := EvaluateCriterion(c, facts), CriterionFactsOf(c, facts);
      r.state ==
        if SupportQualifies(c.rule, relevant, Some(c)).met then
          (if r.contradictions != {} then Contradicted else Demonstrated)
        else if AnyFact(relevant, IsSupport) then PartiallyDemonstrated
        else if AnyFact(relevant, IsAttempt) then NotDemonstrated
        else UnknownState
  {}

  /** Assessed or verified, and meant for or against. */
  ghost predicate Attempts(f: Fact) {
    && (f.evidence.evidenceType == EvidenceType.Assessment || f.evidence.evidenceType == EvidenceType.Verification)
    && (f.link.effect == Supports || f.link.effect == Contradicts)
  }

  lemma {:induction false} ContradictionsMean(c: Criterion, facts: seq<Fact>)
    ensures var r := EvaluateCriterion(c, facts);
      forall id :: id in r.contradictions <==> exists f :: Outlives(c, facts, r.supports, f) && f.evidence.id == id
  {
    var r, relevant := EvaluateCriterion(c, facts), CriterionFactsOf(c, facts);
    forall f
      ensures f in relevant && Unresolved(f, LatestOccurrence(EvidenceOf(relevant), r.supports)) <==>
        Outlives(c, facts, r.supports, f)
    {
      UnresolvedMeans(c, facts, r.supports, f);
    }
  }

  // ---- What is counted ----------------------------------------------------------------------------

  /** The rule asks for independent work. */
  ghost predicate AsksAlone(rule: Rule) { rule != Exposure && rule != GuidedPerformance }

  ghost predicate Fits(rule: Rule, f: Fact) {
    if AsksAlone(rule) then f.evidence.independence == Independent else f.evidence.independence != UnknownIndependence
  }

  ghost predicate SupportsSolidly(f: Fact) { f.link.effect == Supports && Solid(f.evidence) }

  ghost function SupportsFitting(rule: Rule): Fact -> bool { f => SupportsSolidly(f) && Fits(rule, f) }

  /** The number of occurrences of the criterion's facts that satisfy `p`. */
  ghost function Count(c: Criterion, facts: seq<Fact>, p: Fact -> bool): nat { |OccurrencesWith(Linked(c, facts), p)| }

  lemma {:induction false} TallyCounts(c: Criterion, facts: seq<Fact>, p: Fact -> bool, q: Fact -> bool)
    requires forall f :: p(f) == q(f)
    ensures Tally(CriterionFactsOf(c, facts), p) == Count(c, facts, q)
  {
    var relevant := CriterionFactsOf(c, facts);
    assert (set f | f in relevant && p(f) :: OccurrenceOf(f.evidence)) == OccurrencesWith(Linked(c, facts), q);
  }

  lemma {:induction false} FewerCount(c: Criterion, facts: seq<Fact>, p: Fact -> bool, q: Fact -> bool)
    requires forall f :: p(f) ==> q(f)
    ensures Count(c, facts, p) <= Count(c, facts, q)
  {
    SubsetSize(OccurrencesWith(Linked(c, facts), p), OccurrencesWith(Linked(c, facts), q));
  }

  lemma {:induction false} QualitiesMean(rule: Rule)
    ensures forall f :: IsSupport(f) == Supporting(f) && IsMeaningfulSupport(f) == SupportsSolidly(f)
    ensures forall f :: IsCompatibleSupport(rule)(f) == SupportsFitting(rule)(f)
    ensures forall f :: IsAttempt(f) == Attempts(f)
  {
    forall f: Fact ensures Meaningful(f.evidence) == Solid(f.evidence) {}
    forall f: Fact ensures IndependenceAllowed(rule, f.evidence.independence) == Fits(rule, f) {}
  }

  /** The counts are of supporting, solid, fitting and attempting occurrences, and nested. */
  lemma {:induction false} CountsMean(c: Criterion, facts: seq<Fact>)
    ensures var n := EvaluateCriterion(c, facts).facts;
      && n.supports == Count(c, facts, Supporting)
      && n.meaningful == Count(c, facts, SupportsSolidly)
      && n.compatible == Count(c, facts, SupportsFitting(c.rule))
      && n.attempts == Count(c, facts, Attempts)
      && n.compatible <= n.meaningful <= n.supports
  {
    QualitiesMean(c.rule);
    TallyCounts(c, facts, IsSupport, Supporting);
    TallyCounts(c, facts, IsMeaningfulSupport, SupportsSolidly);
    TallyCounts(c, facts, IsCompatibleSupport(c.rule), SupportsFitting(c.rule));
    TallyCounts(c, facts, IsAttempt, Attempts);
    FewerCount(c, facts, SupportsSolidly, Supporting);
    FewerCount(c, facts, SupportsFitting(c.rule), SupportsSolidly);
  }

  /**
   The state follows from whether the rule is met, the unresolved contradictions and the reported counts, and the links
   reported are those of decisive evidence to this criterion, for it or against it.
   */
  lemma {:induction false} ResultIsConsistent(c: Criterion, facts: seq<Fact>)
    ensures var r, met := EvaluateCriterion(c, facts), Meets(c.rule, Linked(c, facts), Some(c));
      && r.state == (
           if met then (if r.contradictions != {} then Contradicted else Demonstrated)
           else if r.facts.supports > 0 then PartiallyDemonstrated
           else if r.facts.attempts > 0 then NotDemonstrated
           else UnknownState)
      && r.Decisive() == r.supports + r.contradictions
      && (forall id :: id in r.facts.decisiveLinks <==> IsDecisiveLink(c, facts, r, id))
  {
    StateMeans(c, facts);
    CountsMean(c, facts);
    CountIsPositive(c, facts, Supporting);
    CountIsPositive(c, facts, Attempts);
    var r := EvaluateCriterion(c, facts);
    forall id ensures id in r.facts.decisiveLinks <==> IsDecisiveLink(c, facts, r, id) {}
  }

  ghost predicate IsDecisiveLink(c: Criterion, facts: seq<Fact>, r: CriterionResult, id: Id) {
    exists f ::
      && f in facts && f.link.id == id && f.link.criterion == Some(c.id)
      && f.link.effect != ContextOnly && (f.evidence.id in r.supports || f.evidence.id in r.contradictions)
  }

  lemma {:induction false} CountIsPositive(c: Criterion, facts: seq<Fact>, p: Fact -> bool)
    ensures Count(c, facts, p) > 0 <==> AnyFact(Linked(c, facts), p)
  {
    if AnyFact(Linked(c, facts), p) {
      var f :| f in Linked(c, facts) && p(f);
      assert OccurrenceOf(f.evidence) in OccurrencesWith(Linked(c, facts), p);
    }
  }
}

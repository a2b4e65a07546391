/** Demonstration rules over a scope's facts, and the state they give one criterion. */
module Criteria {
  import opened Base
  import opened Model
  import opened ActiveFacts

  predicate IsSupport(f: Fact) { f.link.effect == Supports }

  predicate IsContradiction(f: Fact) { f.link.effect == Contradicts }

  /** At least moderate strength from a source of at least medium confidence. */
  predicate Meaningful(e: Evidence) { e.strength.Rank() >= 2 && e.sourceConfidence.Rank() >= 2 }

  predicate IsWeakSupport(f: Fact) { IsSupport(f) && f.evidence.strength.Rank() >= 1 }

  predicate IsModerateSupport(f: Fact) {
    IsSupport(f) && Meaningful(f.evidence) && f.evidence.independence in {Guided, Assisted, Independent}
  }

  predicate IsIndependentSupport(f: Fact) {
    IsSupport(f) && Meaningful(f.evidence) && f.evidence.independence == Independent
  }

  predicate IsStrongIndependentSupport(f: Fact) { IsIndependentSupport(f) && f.evidence.strength == Strong }

  /** A strong, independent, high-confidence assessment or verification. */
  predicate IsAuthoritativeGrade(e: Evidence) {
    && e.evidenceType in {Assessment, Verification}
    && e.strength == Strong
    && e.independence == Independent
    && e.sourceConfidence == High
  }

  predicate RubricBound(p: Provenance, c: Criterion) {
    && c.rubric.Some?
    && (|| (c.id in p.rubricReferences && p.rubricReferences[c.id] == c.rubric.value)
        || (p.rubricCriterion == Some(c.id) && p.rubricReference == c.rubric))
  }

  predicate IsAuthoritativeSupport(f: Fact, c: Option<Criterion>) {
    IsSupport(f) && IsAuthoritativeGrade(f.evidence) && c.Some? && RubricBound(f.evidence.provenance, c.value)
  }

  // ---- One representative per occurrence: a dictionary keyed by occurrence, last write wins ----

  function IndexOf(reps: seq<Fact>, o: Occurrence): (i: nat)
    ensures i <= |reps|
    ensures i < |reps| ==> OccurrenceOf(reps[i].evidence) == o
    ensures forall j :: 0 <= j < i ==> OccurrenceOf(reps[j].evidence) != o
  {
    if reps == [] then 0
    else if OccurrenceOf(reps[0].evidence) == o then 0
    else 1 + IndexOf(reps[1..], o)
  }

  ghost predicate DistinctOccurrences(reps: seq<Fact>) {
    forall i, j :: 0 <= i < j < |reps| ==> OccurrenceOf(reps[i].evidence) != OccurrenceOf(reps[j].evidence)
  }

  function Put(reps: seq<Fact>, f: Fact): (r: seq<Fact>)
    requires DistinctOccurrences(reps)
    ensures DistinctOccurrences(r)
    ensures forall g :: g in r ==> g == f || g in reps
  {
    var i := IndexOf(reps, OccurrenceOf(f.evidence));
    if i < |reps| then reps[i := f] else reps + [f]
  }

  function ByOccurrence(facts: seq<Fact>): (reps: seq<Fact>)
    ensures DistinctOccurrences(reps)
    ensures forall f :: f in reps ==> f in facts
  {
    if facts == [] then []
    else Put(ByOccurrence(facts[..|facts| - 1]), facts[|facts| - 1])
  }

  function Occurrences(facts: seq<Fact>): set<Occurrence> { set f | f in facts :: OccurrenceOf(f.evidence) }

  lemma {:induction false} PutOccurrences(reps: seq<Fact>, f: Fact)
    requires DistinctOccurrences(reps)
    ensures Occurrences(Put(reps, f)) == Occurrences(reps) + {OccurrenceOf(f.evidence)}
  {
    var i := IndexOf(reps, OccurrenceOf(f.evidence));
    if i < |reps| {
      var r := reps[i := f];
      forall o | o in Occurrences(reps) ensures o in Occurrences(r) {
        var k :| 0 <= k < |reps| && OccurrenceOf(reps[k].evidence) == o;
        assert r[k] in r && OccurrenceOf(r[k].evidence) == o;
      }
      assert r[i] in r;
    }
  }

  lemma {:induction false} ByOccurrenceCovers(facts: seq<Fact>)
    ensures Occurrences(ByOccurrence(facts)) == Occurrences(facts)
  {
    if facts != [] {
      var init, last := facts[..|facts| - 1], facts[|facts| - 1];
      ByOccurrenceCovers(init);
      PutOccurrences(ByOccurrence(init), last);
      assert facts == init + [last];
    }
  }

  function EvidenceIds(facts: seq<Fact>): set<Id> { set f | f in facts :: f.evidence.id }

  function Take(facts: seq<Fact>, n: nat): seq<Fact> { if |facts| <= n then facts else facts[..n] }

  function KnownContexts(facts: seq<Fact>): set<string> {
    set f | f in facts && ContextOf(f.evidence) != LEGACY_CONTEXT :: ContextOf(f.evidence)
  }

  // ---- The rules -------------------------------------------------------------------------------

  /** Whether a rule is met, and the evidence that decides it. */
  datatype Verdict = Verdict(met: bool, ids: set<Id>)

  function AuthoritativeSupports(facts: seq<Fact>, c: Option<Criterion>): (r: seq<Fact>)
    ensures forall f :: f in r <==> f in facts && IsAuthoritativeSupport(f, c)
  {
    Filter(facts, (f: Fact) => IsAuthoritativeSupport(f, c))
  }

  function FirstOnly(facts: seq<Fact>): Verdict { Verdict(facts != [], EvidenceIds(Take(facts, 1))) }

  function IndependentVerdict(strong: seq<Fact>, independent: seq<Fact>): Verdict {
    if strong != [] then Verdict(true, {strong[0].evidence.id})
    else
      var selected := Take(ByOccurrence(independent), 2);
      Verdict(|selected| >= 2, EvidenceIds(selected))
  }

  function RepeatedVerdict(strong: seq<Fact>, independent: seq<Fact>): Verdict {
    var strongOccurrences := ByOccurrence(strong);
    var all := ByOccurrence(independent);
    if |strongOccurrences| >= 2 && |KnownContexts(strongOccurrences)| >= 2 then
      Verdict(true, EvidenceIds(Take(strongOccurrences, 2)))
    else if strong != [] && |all| >= 3 && |KnownContexts(all)| >= 2 then
      Verdict(true, EvidenceIds(Take(all, 3)))
    else Verdict(false, {})
  }

  function SupportQualifies(rule: Rule, facts: seq<Fact>, c: Option<Criterion>): Verdict {
    match rule
    case Exposure => FirstOnly(Filter(facts, IsWeakSupport))
    case GuidedPerformance => FirstOnly(Filter(facts, IsModerateSupport))
    case IndependentPerformance =>
      IndependentVerdict(Filter(facts, IsStrongIndependentSupport), Filter(facts, IsIndependentSupport))
    case RepeatedIndependentPerformance =>
      RepeatedVerdict(Filter(facts, IsStrongIndependentSupport), Filter(facts, IsIndependentSupport))
    case AuthoritativeAssessment => FirstOnly(AuthoritativeSupports(facts, c))
  }

  // ---- One criterion ---------------------------------------------------------------------------

  datatype CriterionState = UnknownState | NotDemonstrated | PartiallyDemonstrated | Contradicted | Demonstrated

  datatype CriterionFacts = CriterionFacts(
    supports: nat, meaningful: nat, compatible: nat, attempts: nat, decisiveLinks: set<Id>)

  /** Sorted id tuples are sets here: sorting makes them canonical. */
  datatype CriterionResult = CriterionResult(
    criterion: Criterion, state: CriterionState, supports: set<Id>, contradictions: set<Id>, facts: CriterionFacts)
  {
    function Decisive(): set<Id> { supports + contradictions }
  }

  function CriterionFactsOf(c: Criterion, facts: seq<Fact>): (r: seq<Fact>)
    ensures forall f :: f in r <==> f in facts && f.link.criterion == Some(c.id)
  {
    Filter(facts, (f: Fact) => f.link.criterion == Some(c.id))
  }

  function EvidenceOf(facts: seq<Fact>): (r: seq<Evidence>)
    ensures forall e :: e in r <==> exists f :: f in facts && f.evidence == e
  {
    if facts == [] then [] else EvidenceOf(facts[..|facts| - 1]) + [facts[|facts| - 1].evidence]
  }

  predicate DemandsIndependence(rule: Rule) {
    rule in {IndependentPerformance, RepeatedIndependentPerformance, AuthoritativeAssessment}
  }

  predicate IndependenceAllowed(rule: Rule, i: Independence) {
    if DemandsIndependence(rule) then i == Independent else i in {Guided, Assisted, Independent, NotApplicable}
  }

  predicate IsMeaningfulSupport(f: Fact) { IsSupport(f) && Meaningful(f.evidence) }

  function IsCompatibleSupport(rule: Rule): Fact -> bool {
    (f: Fact) => IsMeaningfulSupport(f) && IndependenceAllowed(rule, f.evidence.independence)
  }

  predicate IsAttempt(f: Fact) {
    f.evidence.evidenceType in {Assessment, Verification} && f.link.effect != ContextOnly
  }

  /** The number of occurrences among the facts that satisfy `p`. */
  function Tally(facts: seq<Fact>, p: Fact -> bool): nat { |set f | f in facts && p(f) :: OccurrenceOf(f.evidence)| }

  /** A meaningful dated contradiction later than `bound`. */
  predicate Unresolved(f: Fact, bound: Option<int>) {
    IsContradiction(f) && Meaningful(f.evidence) && f.evidence.occurredAt.Some?
      && After(f.evidence.occurredAt.value, bound)
  }

  function EvaluateCriterion(c: Criterion, facts: seq<Fact>): (r: CriterionResult)
    ensures r.criterion == c
    ensures r.Decisive() <= EvidenceIds(CriterionFactsOf(c, facts))
  {
    var relevant := CriterionFactsOf(c, facts);
    var verdict := SupportQualifies(c.rule, relevant, Some(c));
    var latestSupport := LatestOccurrence(EvidenceOf(relevant), verdict.ids);
    var contradictions := set f | f in relevant && Unresolved(f, latestSupport) :: f.evidence.id;
    var state :=
      if verdict.met && contradictions != {} then Contradicted
      else if verdict.met then Demonstrated
      else if exists f :: f in relevant && IsSupport(f) then PartiallyDemonstrated
      else if exists f :: f in relevant && IsAttempt(f) then NotDemonstrated
      else UnknownState;
    var decisive := verdict.ids + contradictions;
    VerdictWithin(c.rule, relevant, Some(c));
    CriterionResult(c, state, verdict.ids, contradictions, CriterionFacts(
      Tally(relevant, IsSupport), Tally(relevant, IsMeaningfulSupport), Tally(relevant, IsCompatibleSupport(c.rule)),
      Tally(relevant, IsAttempt),
      set f | f in relevant && f.evidence.id in decisive && f.link.effect != ContextOnly :: f.link.id))
  }

  lemma {:induction false} VerdictWithin(rule: Rule, facts: seq<Fact>, c: Option<Criterion>)
    ensures SupportQualifies(rule, facts, c).ids <= EvidenceIds(facts)
  {
    match rule {
      case IndependentPerformance =>
        var strong := Filter(facts, IsStrongIndependentSupport);
        assert strong != [] ==> strong[0] in facts;
      case _ =>
    }
  }
}

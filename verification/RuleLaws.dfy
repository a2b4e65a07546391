/**
 What the demonstration rules promise whatever order the facts come in: a rule's verdict depends on the set of facts
 alone unless the order matters, grows with it, and a stronger rule implies every weaker one.
 */
module RuleLaws {
  import opened Base
  import opened Model
  import opened ActiveFacts
  import opened Criteria
  import opened Meaning
  import opened OccurrenceDictionary

  ghost function Elements(facts: seq<Fact>): set<Fact> { set f | f in facts }

  ghost function OccurrencesIn(s: set<Fact>): set<Occurrence> { set f | f in s :: OccurrenceOf(f.evidence) }

  /** Facts of one occurrence were recorded in one context. */
  ghost predicate SharedContexts(s: set<Fact>) {
    forall f, g :: f in s && g in s && OccurrenceOf(f.evidence) == OccurrenceOf(g.evidence) ==>
      ContextOf(f.evidence) == ContextOf(g.evidence)
  }

  ghost function IndependentIn(s: set<Fact>): set<Fact> { set f | f in s && PerformsAlone(f) }

  ghost function StrongIn(s: set<Fact>): set<Fact> { set f | f in s && PerformsStrongly(f) }

  /** Different occurrences in different known contexts. */
  ghost predicate Apart(f: Fact, g: Fact) {
    && OccurrenceOf(f.evidence) != OccurrenceOf(g.evidence) && ContextOf(f.evidence) != ContextOf(g.evidence)
    && ContextOf(f.evidence) != LEGACY_CONTEXT && ContextOf(g.evidence) != LEGACY_CONTEXT
  }

  ghost predicate InTwoContexts(s: set<Fact>) { exists f, g :: f in s && g in s && Apart(f, g) }

  /** Some order of the facts meets the repeated rule. */
  ghost predicate MayHold(strong: set<Fact>, independent: set<Fact>) {
    || InTwoContexts(strong)
    || (strong != {} && |OccurrencesIn(independent)| >= 3 && InTwoContexts(independent))
  }

  ghost predicate Suits(f: Fact, context: string) { ContextOf(f.evidence) in {context, LEGACY_CONTEXT} }

  /** Standing for its occurrence among the strong facts, `f` adds no context to `context`, or none is counted. */
  ghost predicate SuitsStrong(strong: set<Fact>, f: Fact, context: string) {
    |OccurrencesIn(strong)| < 2 || Suits(f, context)
  }

  /** The same among all independent facts. */
  ghost predicate SuitsAll(strong: set<Fact>, independent: set<Fact>, f: Fact, context: string) {
    strong == {} || |OccurrencesIn(independent)| < 3 || Suits(f, context)
  }

  /** A strong fact of the occurrence that suits both ways. */
  ghost predicate OneSuits(strong: set<Fact>, independent: set<Fact>, o: Occurrence, p: string, q: string) {
    exists f ::
      f in strong && OccurrenceOf(f.evidence) == o && SuitsStrong(strong, f, p) && SuitsAll(strong, independent, f, q)
  }

  ghost predicate OtherSuits(strong: set<Fact>, independent: set<Fact>, o: Occurrence, q: string) {
    exists f :: f in independent && f !in strong && OccurrenceOf(f.evidence) == o && SuitsAll(strong, independent, f, q)
  }

  ghost predicate StrongSuits(strong: set<Fact>, o: Occurrence, p: string) {
    o in OccurrencesIn(strong) ==> exists g :: g in strong && OccurrenceOf(g.evidence) == o && SuitsStrong(strong, g, p)
  }

  /** The occurrence can be represented in at most the contexts `p` and `q`. */
  ghost predicate Hides(strong: set<Fact>, independent: set<Fact>, o: Occurrence, p: string, q: string) {
    || OneSuits(strong, independent, o, p, q)
    || (OtherSuits(strong, independent, o, q) && StrongSuits(strong, o, p))
  }

  ghost predicate AllHide(strong: set<Fact>, independent: set<Fact>, p: string, q: string) {
    forall o :: o in OccurrencesIn(independent) ==> Hides(strong, independent, o, p, q)
  }

  /** Some order of the facts does not meet the repeated rule. */
  ghost predicate MayFail(strong: set<Fact>, independent: set<Fact>) {
    exists p, q :: AllHide(strong, independent, p, q)
  }

  /** Which fact is last in its occurrence decides the rule. */
  ghost predicate OrderMatters(rule: Rule, s: set<Fact>) {
    rule == RepeatedIndependentPerformance && MayHold(StrongIn(s), IndependentIn(s))
      && MayFail(StrongIn(s), IndependentIn(s))
  }

  /** The rules stated on sets, with no order and no dictionaries: some order of the facts meets the rule. */
  ghost predicate RuleHolds(rule: Rule, s: set<Fact>, c: Option<Criterion>) {
    match rule
    case Exposure => exists f :: f in s && Exposes(f)
    case GuidedPerformance => exists f :: f in s && Performs(f)
    case IndependentPerformance => StrongIn(s) != {} || |OccurrencesIn(IndependentIn(s))| >= 2
    case RepeatedIndependentPerformance => MayHold(StrongIn(s), IndependentIn(s))
    case AuthoritativeAssessment => exists f :: f in s && Certifies(f, c)
  }

  lemma {:induction false} DistinctCount(reps: seq<Fact>)
    requires DistinctOccurrences(reps)
    ensures |Occurrences(reps)| == |reps|
  {
    if reps != [] {
      var init, last := reps[..|reps| - 1], reps[|reps| - 1];
      DistinctCount(init);
      assert Occurrences(reps) == Occurrences(init) + {OccurrenceOf(last.evidence)} by {
        assert reps == init + [last];
      }
      assert OccurrenceOf(last.evidence) !in Occurrences(init);
    }
  }

  lemma {:induction false} RepresentativesSuffice(facts: seq<Fact>)
    ensures |ByOccurrence(facts)| == |OccurrencesIn(Elements(facts))|
  {
    ByOccurrenceCovers(facts);
    DistinctCount(ByOccurrence(facts));
    assert Occurrences(facts) == OccurrencesIn(Elements(facts));
  }

  lemma {:induction false} FilterElements(facts: seq<Fact>)
    ensures Elements(Filter(facts, IsIndependentSupport)) == IndependentIn(Elements(facts))
    ensures Elements(Filter(facts, IsStrongIndependentSupport)) == StrongIn(Elements(facts))
  {
    forall f
      ensures IsIndependentSupport(f) == PerformsAlone(f) && IsStrongIndependentSupport(f) == PerformsStrongly(f)
    {
      GradesMean(f, None);
    }
  }

  lemma {:induction false} NonEmpty(facts: seq<Fact>)
    ensures facts != [] <==> exists f :: f in facts
    ensures facts != [] <==> Elements(facts) != {}
  {
    if facts != [] { assert facts[0] in facts && facts[0] in Elements(facts); }
  }

  lemma {:induction false} SomeQualifies(facts: seq<Fact>, p: Fact -> bool, c: Option<Criterion>)
    ensures Filter(facts, p) != [] <==> exists f :: f in Elements(facts) && p(f)
    ensures forall f ::
      (IsWeakSupport(f) <==> Exposes(f)) && (IsModerateSupport(f) <==> Performs(f))
      && (IsAuthoritativeSupport(f, c) <==> Certifies(f, c))
  {
    NonEmpty(Filter(facts, p));
    forall f
      ensures IsWeakSupport(f) == Exposes(f) && IsModerateSupport(f) == Performs(f)
      ensures IsAuthoritativeSupport(f, c) == Certifies(f, c)
    {
      GradesMean(f, c);
    }
  }

  lemma {:induction false} IndependentIsSetBased(facts: seq<Fact>)
    ensures SupportQualifies(IndependentPerformance, facts, None).met <==>
      RuleHolds(IndependentPerformance, Elements(facts), None)
  {
    FilterElements(facts);
    NonEmpty(Filter(facts, IsStrongIndependentSupport));
    RepresentativesSuffice(Filter(facts, IsIndependentSupport));
  }

  /** The kept facts show two known contexts exactly when two of them are apart. */
  lemma {:induction false} ContextsMean(reps: seq<Fact>)
    requires DistinctOccurrences(reps)
    ensures |KnownContexts(reps)| >= 2 <==> exists f, g :: f in reps && g in reps && Apart(f, g)
  {
    var contexts := KnownContexts(reps);
    if |contexts| >= 2 {
      var x :| x in contexts;
      assert |contexts - {x}| >= 1;
      var y :| y in contexts - {x};
      var f :| f in reps && ContextOf(f.evidence) == x;
      var g :| g in reps && ContextOf(g.evidence) == y;
      assert Apart(f, g);
    }
    if f, g :| f in reps && g in reps && Apart(f, g) {
      var two := {ContextOf(f.evidence), ContextOf(g.evidence)};
      assert |two| == 2;
      SubsetSize(two, contexts);
    }
  }

  lemma {:induction false} OneContext(reps: seq<Fact>) returns (p: string)
    requires |KnownContexts(reps)| < 2
    ensures forall f :: f in reps ==> Suits(f, p)
  {
    var contexts := KnownContexts(reps);
    p := LEGACY_CONTEXT;
    if contexts != {} {
      var x :| x in contexts;
      p := x;
      forall f | f in reps ensures Suits(f, p) {
        if !Suits(f, p) {
          var two := {p, ContextOf(f.evidence)};
          assert |two| == 2;
          SubsetSize(two, contexts);
        }
      }
    } else {
      assert forall f :: f in reps && !Suits(f, p) ==> ContextOf(f.evidence) in contexts;
    }
  }

  ghost function StrongList(facts: seq<Fact>): seq<Fact> { Filter(facts, IsStrongIndependentSupport) }

  ghost function IndependentList(facts: seq<Fact>): seq<Fact> { Filter(facts, IsIndependentSupport) }

  lemma {:induction false} TwoContextsShow(facts: seq<Fact>)
    requires |KnownContexts(ByOccurrence(facts))| >= 2
    ensures InTwoContexts(Elements(facts))
  {
    ContextsMean(ByOccurrence(facts));
    var f, g :| f in ByOccurrence(facts) && g in ByOccurrence(facts) && Apart(f, g);
    assert f in Elements(facts) && g in Elements(facts);
  }

  lemma {:induction false} MetMayHold(facts: seq<Fact>)
    requires RepeatedVerdict(StrongList(facts), IndependentList(facts)).met
    ensures MayHold(StrongIn(Elements(facts)), IndependentIn(Elements(facts)))
  {
    var strong, independent := StrongList(facts), IndependentList(facts);
    FilterElements(facts);
    if |KnownContexts(ByOccurrence(strong))| >= 2 {
      TwoContextsShow(strong);
    } else {
      NonEmpty(strong);
      RepresentativesSuffice(independent);
      TwoContextsShow(independent);
    }
  }

  /** The kept facts suit the contexts. */
  ghost predicate KeptSuit(facts: seq<Fact>, p: string, q: string) {
    var s, i := StrongIn(Elements(facts)), IndependentIn(Elements(facts));
    && (forall f :: f in ByOccurrence(StrongList(facts)) ==> SuitsStrong(s, f, p))
    && forall f :: f in ByOccurrence(IndependentList(facts)) ==> SuitsAll(s, i, f, q)
  }

  lemma {:induction false} StrongStaysLast(facts: seq<Fact>, f: Fact)
    requires f in ByOccurrence(IndependentList(facts)) && IsStrongIndependentSupport(f)
    ensures f in ByOccurrence(StrongList(facts))
  {
    DictionaryKeepsLast(facts, IsIndependentSupport, f);
    DictionaryKeepsLast(facts, IsStrongIndependentSupport, f);
    var i :| 0 <= i < |facts| && facts[i] == f
      && forall j :: i < j < |facts| && IsIndependentSupport(facts[j]) ==>
        OccurrenceOf(facts[j].evidence) != OccurrenceOf(f.evidence);
    assert forall j :: i < j < |facts| && IsStrongIndependentSupport(facts[j]) ==>
      OccurrenceOf(facts[j].evidence) != OccurrenceOf(f.evidence);
  }

  lemma {:induction false} KeptHides(facts: seq<Fact>, o: Occurrence, p: string, q: string)
    requires KeptSuit(facts, p, q) && o in OccurrencesIn(IndependentIn(Elements(facts)))
    ensures Hides(StrongIn(Elements(facts)), IndependentIn(Elements(facts)), o, p, q)
  {
    var s, i := StrongIn(Elements(facts)), IndependentIn(Elements(facts));
    FilterElements(facts);
    var x :| x in i && OccurrenceOf(x.evidence) == o;
    var f := RepresentativeOf(IndependentList(facts), x);
    assert f in Elements(IndependentList(facts));
    if IsStrongIndependentSupport(f) {
      StrongStaysLast(facts, f);
      assert f in s;
    } else if o in OccurrencesIn(s) {
      var y :| y in s && OccurrenceOf(y.evidence) == o;
      assert y in Elements(StrongList(facts));
      var g := RepresentativeOf(StrongList(facts), y);
      assert g in Elements(StrongList(facts));
    }
  }

  lemma {:induction false} KeptStrongSuit(facts: seq<Fact>) returns (p: string)
    requires |ByOccurrence(facts)| < 2 || |KnownContexts(ByOccurrence(facts))| < 2
    ensures forall f :: f in ByOccurrence(facts) ==> SuitsStrong(Elements(facts), f, p)
  {
    p := "";
    RepresentativesSuffice(facts);
    if |ByOccurrence(facts)| >= 2 { p := OneContext(ByOccurrence(facts)); }
  }

  lemma {:induction false} KeptAllSuit(strong: set<Fact>, facts: seq<Fact>) returns (q: string)
    requires strong == {} || |ByOccurrence(facts)| < 3 || |KnownContexts(ByOccurrence(facts))| < 2
    ensures forall f :: f in ByOccurrence(facts) ==> SuitsAll(strong, Elements(facts), f, q)
  {
    q := "";
    RepresentativesSuffice(facts);
    if strong != {} && |ByOccurrence(facts)| >= 3 { q := OneContext(ByOccurrence(facts)); }
  }

  lemma {:induction false} UnmetSuits(facts: seq<Fact>) returns (p: string, q: string)
    requires !RepeatedVerdict(StrongList(facts), IndependentList(facts)).met
    ensures KeptSuit(facts, p, q)
  {
    FilterElements(facts);
    NonEmpty(StrongList(facts));
    p := KeptStrongSuit(StrongList(facts));
    q := KeptAllSuit(StrongIn(Elements(facts)), IndependentList(facts));
  }

  lemma {:induction false} UnmetMayFail(facts: seq<Fact>)
    requires !RepeatedVerdict(StrongList(facts), IndependentList(facts)).met
    ensures MayFail(StrongIn(Elements(facts)), IndependentIn(Elements(facts)))
  {
    var s, i := StrongIn(Elements(facts)), IndependentIn(Elements(facts));
    var p, q := UnmetSuits(facts);
    forall o | o in OccurrencesIn(i) ensures Hides(s, i, o, p, q) {
      KeptHides(facts, o, p, q);
    }
    assert AllHide(s, i, p, q);
  }

  /** A met rule holds of the set of facts, and a rule that holds of it is met unless the order matters. */
  lemma {:induction false} VerdictIsSetBased(rule: Rule, facts: seq<Fact>, c: Option<Criterion>)
    ensures SupportQualifies(rule, facts, c).met ==> RuleHolds(rule, Elements(facts), c)
    ensures RuleHolds(rule, Elements(facts), c) && !OrderMatters(rule, Elements(facts)) ==>
      SupportQualifies(rule, facts, c).met
  {
    match rule {
      case Exposure => SomeQualifies(facts, IsWeakSupport, c);
      case GuidedPerformance => SomeQualifies(facts, IsModerateSupport, c);
      case AuthoritativeAssessment => SomeQualifies(facts, f => IsAuthoritativeSupport(f, c), c);
      case IndependentPerformance => IndependentIsSetBased(facts);
      case RepeatedIndependentPerformance =>
        if SupportQualifies(rule, facts, c).met { MetMayHold(facts); } else { UnmetMayFail(facts); }
    }
  }

  /** Facts of one occurrence in one context: then the order never matters. */
  lemma {:induction false} SharedContextsSettle(rule: Rule, s: set<Fact>)
    requires SharedContexts(IndependentIn(s))
    ensures !OrderMatters(rule, s)
  {
    if OrderMatters(rule, s) {
      var strong, independent := StrongIn(s), IndependentIn(s);
      var p, q :| AllHide(strong, independent, p, q);
      if InTwoContexts(strong) {
        var f, g :| f in strong && g in strong && Apart(f, g);
        var two := {OccurrenceOf(f.evidence), OccurrenceOf(g.evidence)};
        SubsetSize(two, OccurrencesIn(strong));
        StrongIsSeen(strong, independent, f, p, q);
        StrongIsSeen(strong, independent, g, p, q);
      } else {
        var f, g :| f in independent && g in independent && Apart(f, g);
        AnyIsSeen(strong, independent, f, p, q);
        AnyIsSeen(strong, independent, g, p, q);
      }
    }
  }

  lemma {:induction false} StrongIsSeen(strong: set<Fact>, independent: set<Fact>, f: Fact, p: string, q: string)
    requires SharedContexts(independent) && strong <= independent && f in strong
    requires AllHide(strong, independent, p, q) && |OccurrencesIn(strong)| >= 2
    ensures Suits(f, p)
  {
    assert OccurrenceOf(f.evidence) in OccurrencesIn(independent) && OccurrenceOf(f.evidence) in OccurrencesIn(strong);
    assert Hides(strong, independent, OccurrenceOf(f.evidence), p, q);
    var g :| g in strong && OccurrenceOf(g.evidence) == OccurrenceOf(f.evidence) && SuitsStrong(strong, g, p);
    assert g in independent && f in independent;
  }

  lemma {:induction false} AnyIsSeen(strong: set<Fact>, independent: set<Fact>, f: Fact, p: string, q: string)
    requires SharedContexts(independent) && strong <= independent && f in independent
    requires AllHide(strong, independent, p, q) && strong != {} && |OccurrencesIn(independent)| >= 3
    ensures Suits(f, q)
  {
    assert OccurrenceOf(f.evidence) in OccurrencesIn(independent);
    assert Hides(strong, independent, OccurrenceOf(f.evidence), p, q);
    var g :| g in independent && OccurrenceOf(g.evidence) == OccurrenceOf(f.evidence)
      && SuitsAll(strong, independent, g, q);
  }

  /** Adding facts never revokes a met rule, unless the order of the larger list matters. */
  lemma {:induction false} VerdictMonotone(rule: Rule, facts: seq<Fact>, facts': seq<Fact>, c: Option<Criterion>)
    requires Elements(facts) <= Elements(facts') && !OrderMatters(rule, Elements(facts'))
    requires SupportQualifies(rule, facts, c).met
    ensures SupportQualifies(rule, facts', c).met
  {
    var s, t := Elements(facts), Elements(facts');
    VerdictIsSetBased(rule, facts, c);
    VerdictIsSetBased(rule, facts', c);
    assert IndependentIn(s) <= IndependentIn(t) && StrongIn(s) <= StrongIn(t);
    SubsetSize(OccurrencesIn(IndependentIn(s)), OccurrencesIn(IndependentIn(t)));
  }

  lemma {:induction false} RepeatedImpliesIndependent(facts: seq<Fact>, c: Option<Criterion>)
    requires SupportQualifies(RepeatedIndependentPerformance, facts, c).met
    ensures SupportQualifies(IndependentPerformance, facts, c).met
  {
    var strong := Filter(facts, IsStrongIndependentSupport);
    if strong == [] { assert ByOccurrence(strong) == []; }
  }

  lemma {:induction false} AuthoritativeImpliesIndependent(facts: seq<Fact>, c: Option<Criterion>)
    requires SupportQualifies(AuthoritativeAssessment, facts, c).met
    ensures SupportQualifies(IndependentPerformance, facts, c).met
  {
    var f := AuthoritativeSupports(facts, c)[0];
    assert f in facts && IsAuthoritativeSupport(f, c) by {
      assert f in AuthoritativeSupports(facts, c);
    }
    var strong := Filter(facts, IsStrongIndependentSupport);
    assert f in strong && strong != [];
  }

  lemma {:induction false} IndependentImpliesGuided(facts: seq<Fact>, c: Option<Criterion>)
    requires SupportQualifies(IndependentPerformance, facts, c).met
    ensures SupportQualifies(GuidedPerformance, facts, c).met
  {
    var strong, reps := Filter(facts, IsStrongIndependentSupport), ByOccurrence(Filter(facts, IsIndependentSupport));
    var f := if strong != [] then strong[0] else reps[0];
    assert f in strong || f in reps;
    assert f in Filter(facts, IsModerateSupport);
  }

  lemma {:induction false} GuidedImpliesExposure(facts: seq<Fact>, c: Option<Criterion>)
    requires SupportQualifies(GuidedPerformance, facts, c).met
    ensures SupportQualifies(Exposure, facts, c).met
  {
    var f := Filter(facts, IsModerateSupport)[0];
    assert f in Filter(facts, IsModerateSupport);
    assert f in Filter(facts, IsWeakSupport);
  }

  /** Stronger rules imply weaker ones, for every fact list, shared contexts or not. */
  lemma {:induction false} RuleHierarchy(facts: seq<Fact>, c: Option<Criterion>)
    ensures SupportQualifies(RepeatedIndependentPerformance, facts, c).met
      || SupportQualifies(AuthoritativeAssessment, facts, c).met
      ==> SupportQualifies(IndependentPerformance, facts, c).met
    ensures SupportQualifies(IndependentPerformance, facts, c).met ==> SupportQualifies(GuidedPerformance, facts, c).met
    ensures SupportQualifies(GuidedPerformance, facts, c).met ==> SupportQualifies(Exposure, facts, c).met
  {
    if SupportQualifies(RepeatedIndependentPerformance, facts, c).met { RepeatedImpliesIndependent(facts, c); }
    if SupportQualifies(AuthoritativeAssessment, facts, c).met { AuthoritativeImpliesIndependent(facts, c); }
    if SupportQualifies(IndependentPerformance, facts, c).met { IndependentImpliesGuided(facts, c); }
    if SupportQualifies(GuidedPerformance, facts, c).met { GuidedImpliesExposure(facts, c); }
  }
}

/** When exactly the order of the facts can change a rule's verdict. */
module RuleOrder {
  import opened Base
  import opened Model
  import opened ActiveFacts
  import opened Criteria
  import opened OccurrenceDictionary
  import opened RuleLaws

  // ---- Orders made from tiers -------------------------------------------------------------------------------------

  ghost function AtTier(tier: Fact -> nat, n: nat): Fact -> bool { f => tier(f) == n }

  ghost function UpTo(tier: Fact -> nat, n: nat): Fact -> bool { f => tier(f) <= n }

  /** The facts of tiers 0 to `n`, lower tiers first. */
  ghost function ByTier(facts: seq<Fact>, tier: Fact -> nat, n: nat): seq<Fact> {
    var lower := if n == 0 then [] else ByTier(facts, tier, n - 1);
    lower + Filter(facts, AtTier(tier, n))
  }

  lemma {:induction false} TierMembers(facts: seq<Fact>, tier: Fact -> nat, n: nat)
    ensures forall f :: f in ByTier(facts, tier, n) <==> f in facts && tier(f) <= n
  {
    if n > 0 { TierMembers(facts, tier, n - 1); }
  }

  ghost predicate Rises(l: seq<Fact>, tier: Fact -> nat) {
    forall i, j :: 0 <= i < j < |l| ==> tier(l[i]) <= tier(l[j])
  }

  lemma {:induction false} TopTierRises(lower: seq<Fact>, top: seq<Fact>, tier: Fact -> nat, n: nat)
    requires Rises(lower, tier) && (forall f :: f in lower ==> tier(f) <= n) && forall f :: f in top ==> tier(f) == n
    ensures Rises(lower + top, tier)
  {
    forall i, j | 0 <= i < j < |lower + top| ensures tier((lower + top)[i]) <= tier((lower + top)[j]) {
      if j < |lower| {
        assert tier(lower[i]) <= tier(lower[j]);
      } else {
        assert top[j - |lower|] in top;
        assert if i < |lower| then lower[i] in lower else top[i - |lower|] in top;
      }
    }
  }

  lemma {:induction false} TiersRise(facts: seq<Fact>, tier: Fact -> nat, n: nat)
    ensures Rises(ByTier(facts, tier, n), tier)
  {
    var lower := if n == 0 then [] else ByTier(facts, tier, n - 1);
    if n > 0 {
      TiersRise(facts, tier, n - 1);
      TierMembers(facts, tier, n - 1);
    }
    TopTierRises(lower, Filter(facts, AtTier(tier, n)), tier, n);
  }

  lemma {:induction false} NextTier(facts: seq<Fact>, tier: Fact -> nat, n: nat)
    requires n > 0
    ensures multiset(Filter(facts, UpTo(tier, n))) == multiset(Filter(facts, UpTo(tier, n - 1)))
      + multiset(Filter(facts, AtTier(tier, n)))
  {
    if facts != [] { NextTier(facts[..|facts| - 1], tier, n); }
  }

  lemma {:induction false} LowestTier(facts: seq<Fact>, tier: Fact -> nat)
    ensures Filter(facts, UpTo(tier, 0)) == Filter(facts, AtTier(tier, 0))
  {
    if facts != [] { LowestTier(facts[..|facts| - 1], tier); }
  }

  lemma {:induction false} BagOfBoth(lower: seq<Fact>, top: seq<Fact>, both: seq<Fact>)
    requires both == lower + top
    ensures multiset(both) == multiset(lower) + multiset(top)
  {}

  lemma {:induction false} TiersKeepFacts(facts: seq<Fact>, tier: Fact -> nat, n: nat)
    ensures multiset(ByTier(facts, tier, n)) == multiset(Filter(facts, UpTo(tier, n)))
  {
    if n == 0 {
      LowestTier(facts, tier);
      assert ByTier(facts, tier, 0) == Filter(facts, AtTier(tier, 0));
    } else {
      TiersKeepFacts(facts, tier, n - 1);
      NextTier(facts, tier, n);
      BagOfBoth(ByTier(facts, tier, n - 1), Filter(facts, AtTier(tier, n)), ByTier(facts, tier, n));
    }
  }

  lemma {:induction false} AllPass(facts: seq<Fact>, p: Fact -> bool)
    requires forall f :: f in facts ==> p(f)
    ensures Filter(facts, p) == facts
  {
    if facts != [] {
      var init, last := facts[..|facts| - 1], facts[|facts| - 1];
      assert last in facts;
      forall f | f in init ensures p(f) {
        assert f in facts;
      }
      AllPass(init, p);
      assert Filter(facts, p) == Filter(init, p) + [last] == init + [last];
    }
  }

  ghost predicate Reorders(facts: seq<Fact>, l: seq<Fact>) { multiset(l) == multiset(facts) }

  lemma {:induction false} SameElements(facts: seq<Fact>, l: seq<Fact>)
    requires Reorders(facts, l)
    ensures Elements(l) == Elements(facts)
  {
    assert forall f :: f in l <==> f in multiset(l);
    assert forall f :: f in facts <==> f in multiset(facts);
  }

  lemma {:induction false} TiersReorder(facts: seq<Fact>, tier: Fact -> nat, n: nat)
    requires forall f :: f in facts ==> tier(f) <= n
    ensures Reorders(facts, ByTier(facts, tier, n))
  {
    TiersKeepFacts(facts, tier, n);
    AllPass(facts, UpTo(tier, n));
  }

  lemma {:induction false} LastIsHighest(l: seq<Fact>, tier: Fact -> nat, p: Fact -> bool, f: Fact, g: Fact)
    requires Rises(l, tier) && LastOfOccurrence(l, p, f)
    requires g in l && p(g) && OccurrenceOf(g.evidence) == OccurrenceOf(f.evidence)
    ensures tier(g) <= tier(f)
  {
    var i :| 0 <= i < |l| && l[i] == f
      && forall j :: i < j < |l| && p(l[j]) ==> OccurrenceOf(l[j].evidence) != OccurrenceOf(f.evidence);
    var k :| 0 <= k < |l| && l[k] == g;
    assert k <= i;
  }

  /** The fact kept for an occurrence is of the highest tier found in it. */
  lemma {:induction false} KeptIsHighest(facts: seq<Fact>, tier: Fact -> nat, n: nat, p: Fact -> bool, f: Fact, g: Fact)
    requires f in ByOccurrence(Filter(ByTier(facts, tier, n), p))
    requires g in facts && tier(g) <= n && p(g) && OccurrenceOf(g.evidence) == OccurrenceOf(f.evidence)
    ensures tier(g) <= tier(f)
  {
    var l := ByTier(facts, tier, n);
    DictionaryKeepsLast(l, p, f);
    TierMembers(facts, tier, n);
    TiersRise(facts, tier, n);
    LastIsHighest(l, tier, p, f, g);
  }

  // ---- An order that meets the rule ---------------------------------------------------------------------------------

  ghost function TwoLast(f: Fact, g: Fact): Fact -> nat { x => if x == f || x == g then 1 else 0 }

  /** With two facts apart placed last, both are kept. */
  lemma {:induction false} LastAreKept(facts: seq<Fact>, f: Fact, g: Fact, p: Fact -> bool)
    requires f in facts && g in facts && p(f) && p(g) && Apart(f, g)
    ensures |KnownContexts(ByOccurrence(Filter(ByTier(facts, TwoLast(f, g), 1), p)))| >= 2
  {
    var l := ByTier(facts, TwoLast(f, g), 1);
    TierMembers(facts, TwoLast(f, g), 1);
    var r := RepresentativeOf(Filter(l, p), f);
    KeptIsHighest(facts, TwoLast(f, g), 1, p, r, f);
    var r' := RepresentativeOf(Filter(l, p), g);
    KeptIsHighest(facts, TwoLast(f, g), 1, p, r', g);
    ContextsMean(ByOccurrence(Filter(l, p)));
  }

  lemma {:induction false} ManyOccurrences(strong: set<Fact>)
    requires InTwoContexts(strong)
    ensures |OccurrencesIn(strong)| >= 2
  {
    var f, g :| f in strong && g in strong && Apart(f, g);
    var two := {OccurrenceOf(f.evidence), OccurrenceOf(g.evidence)};
    assert |two| == 2;
    SubsetSize(two, OccurrencesIn(strong));
  }

  lemma {:induction false} MetOrder(facts: seq<Fact>) returns (l: seq<Fact>)
    requires MayHold(StrongIn(Elements(facts)), IndependentIn(Elements(facts)))
    ensures Reorders(facts, l) && RepeatedVerdict(StrongList(l), IndependentList(l)).met
  {
    var strong, independent := StrongIn(Elements(facts)), IndependentIn(Elements(facts));
    var f, g :| (if InTwoContexts(strong) then f in strong && g in strong else f in independent && g in independent)
      && Apart(f, g);
    l := ByTier(facts, TwoLast(f, g), 1);
    TiersReorder(facts, TwoLast(f, g), 1);
    SameElements(facts, l);
    MetWhenKept(facts, l, f, g);
  }

  lemma {:induction false} MetWhenKept(facts: seq<Fact>, l: seq<Fact>, f: Fact, g: Fact)
    requires l == ByTier(facts, TwoLast(f, g), 1) && Elements(l) == Elements(facts) && Apart(f, g)
    requires MayHold(StrongIn(Elements(facts)), IndependentIn(Elements(facts)))
    requires var strong, independent := StrongIn(Elements(facts)), IndependentIn(Elements(facts));
      if InTwoContexts(strong) then f in strong && g in strong else f in independent && g in independent
    ensures RepeatedVerdict(StrongList(l), IndependentList(l)).met
  {
    FilterElements(l);
    if InTwoContexts(StrongIn(Elements(facts))) {
      LastAreKept(facts, f, g, IsStrongIndependentSupport);
      ManyOccurrences(StrongIn(Elements(facts)));
      RepresentativesSuffice(StrongList(l));
    } else {
      LastAreKept(facts, f, g, IsIndependentSupport);
      RepresentativesSuffice(IndependentList(l));
      NonEmpty(StrongList(l));
    }
  }

  // ---- An order that does not -------------------------------------------------------------------

  ghost function Hiding(strong: set<Fact>, independent: set<Fact>, p: string, q: string): Fact -> nat {
    f =>
      if f in strong then
        if SuitsStrong(strong, f, p) then (if SuitsAll(strong, independent, f, q) then 3 else 1) else 0
      else if SuitsAll(strong, independent, f, q) then 2 else 0
  }

  ghost predicate AreIn(facts: seq<Fact>, s: set<Fact>, p: Fact -> bool) { forall f :: f in s <==> f in facts && p(f) }

  lemma {:induction false} StrongKeptSuits(facts: seq<Fact>, s: set<Fact>, i: set<Fact>, p: string, q: string, f: Fact)
    requires AreIn(facts, s, IsStrongIndependentSupport) && AreIn(facts, i, IsIndependentSupport) && AllHide(s, i, p, q)
    requires f in ByOccurrence(StrongList(ByTier(facts, Hiding(s, i, p, q), 3)))
    ensures SuitsStrong(s, f, p)
  {
    var tier := Hiding(s, i, p, q);
    assert f in s && f in i by {
      TierMembers(facts, tier, 3);
      assert f in StrongList(ByTier(facts, tier, 3));
    }
    var o := OccurrenceOf(f.evidence);
    assert o in OccurrencesIn(s) && o in OccurrencesIn(i);
    assert Hides(s, i, o, p, q);
    var g :| g in s && OccurrenceOf(g.evidence) == o && SuitsStrong(s, g, p);
    KeptIsHighest(facts, tier, 3, IsStrongIndependentSupport, f, g);
  }

  lemma {:induction false} IndependentKeptSuits(
      facts: seq<Fact>, s: set<Fact>, i: set<Fact>, p: string, q: string, f: Fact)
    requires AreIn(facts, s, IsStrongIndependentSupport) && AreIn(facts, i, IsIndependentSupport) && AllHide(s, i, p, q)
    requires f in ByOccurrence(IndependentList(ByTier(facts, Hiding(s, i, p, q), 3)))
    ensures SuitsAll(s, i, f, q)
  {
    var tier := Hiding(s, i, p, q);
    TierMembers(facts, tier, 3);
    assert f in IndependentList(ByTier(facts, tier, 3));
    assert f in i;
    var o := OccurrenceOf(f.evidence);
    assert o in OccurrencesIn(i);
    assert Hides(s, i, o, p, q);
    var g :| g in i && OccurrenceOf(g.evidence) == o && SuitsAll(s, i, g, q) && (g in s ==> SuitsStrong(s, g, p));
    KeptIsHighest(facts, tier, 3, IsIndependentSupport, f, g);
  }

  /** If the facts kept suit one context each way, the rule is not met. */
  lemma {:induction false} SuitingIsUnmet(l: seq<Fact>, p: string, q: string)
    requires KeptSuit(l, p, q)
    ensures !RepeatedVerdict(StrongList(l), IndependentList(l)).met
  {
    var s, i := StrongIn(Elements(l)), IndependentIn(Elements(l));
    FilterElements(l);
    NonEmpty(StrongList(l));
    RepresentativesSuffice(StrongList(l));
    RepresentativesSuffice(IndependentList(l));
    if |OccurrencesIn(s)| >= 2 { SuitedContexts(ByOccurrence(StrongList(l)), p); }
    if s != {} && |OccurrencesIn(i)| >= 3 { SuitedContexts(ByOccurrence(IndependentList(l)), q); }
  }

  lemma {:induction false} SuitedContexts(reps: seq<Fact>, p: string)
    requires forall f :: f in reps ==> Suits(f, p)
    ensures |KnownContexts(reps)| < 2
  {
    SubsetSize(KnownContexts(reps), {p});
  }

  lemma {:induction false} UnmetOrder(facts: seq<Fact>) returns (l: seq<Fact>)
    requires MayFail(StrongIn(Elements(facts)), IndependentIn(Elements(facts)))
    ensures Reorders(facts, l) && !RepeatedVerdict(StrongList(l), IndependentList(l)).met
  {
    var s, i := StrongIn(Elements(facts)), IndependentIn(Elements(facts));
    var p, q :| AllHide(s, i, p, q);
    var tier := Hiding(s, i, p, q);
    l := ByTier(facts, tier, 3);
    TiersReorder(facts, tier, 3);
    SameElements(facts, l);
    FilterElements(facts);
    assert forall f :: f in s <==> f in Filter(facts, IsStrongIndependentSupport);
    assert forall f :: f in i <==> f in Filter(facts, IsIndependentSupport);
    forall f | f in ByOccurrence(StrongList(l)) ensures SuitsStrong(s, f, p) {
      StrongKeptSuits(facts, s, i, p, q, f);
    }
    forall f | f in ByOccurrence(IndependentList(l)) ensures SuitsAll(s, i, f, q) {
      IndependentKeptSuits(facts, s, i, p, q, f);
    }
    SuitingIsUnmet(l, p, q);
  }

  // ---- The exact condition ----------------------------------------------------------------------

  /** Every order of the facts gives the same verdict. */
  ghost predicate OrderIrrelevant(rule: Rule, facts: seq<Fact>, c: Option<Criterion>) {
    forall l :: Reorders(facts, l) ==> SupportQualifies(rule, l, c).met == SupportQualifies(rule, facts, c).met
  }

  /**
   The order of the facts cannot change a verdict, except that of the repeated rule when some occurrences can be
   represented apart and all can be represented together.
   */
  lemma {:induction false} OrderIrrelevantIff(rule: Rule, facts: seq<Fact>, c: Option<Criterion>)
    ensures OrderIrrelevant(rule, facts, c) <==> !OrderMatters(rule, Elements(facts))
  {
    if OrderMatters(rule, Elements(facts)) {
      var met := MetOrder(facts);
      var unmet := UnmetOrder(facts);
      assert Reorders(facts, met) && Reorders(facts, unmet);
    } else {
      forall l | Reorders(facts, l) ensures SupportQualifies(rule, l, c).met == SupportQualifies(rule, facts, c).met {
        SameElements(facts, l);
        VerdictIsSetBased(rule, l, c);
        VerdictIsSetBased(rule, facts, c);
      }
    }
  }

  /**
   Two facts of one occurrence in different contexts, and a third occurrence in the second context:
   whichever of the two is read last stands for its occurrence, and the verdict follows it.
   */
  lemma {:induction false} OrderCanDecide(a: Fact, b: Fact, c: Fact)
    requires IsStrongIndependentSupport(a) && IsStrongIndependentSupport(b) && IsStrongIndependentSupport(c)
    requires OccurrenceOf(a.evidence) == OccurrenceOf(b.evidence) != OccurrenceOf(c.evidence)
    requires ContextOf(b.evidence) == ContextOf(c.evidence) != ContextOf(a.evidence)
    requires LEGACY_CONTEXT !in {ContextOf(a.evidence), ContextOf(b.evidence)}
    ensures !SupportQualifies(RepeatedIndependentPerformance, [a, b, c], None).met
    ensures SupportQualifies(RepeatedIndependentPerformance, [b, a, c], None).met
  {
    KeptOfThree(a, b, c);
    KeptOfThree(b, a, c);
    ContextCounts(a, b, c);
    TwoOccurrences([a, b, c], [b, c]);
    TwoOccurrences([b, a, c], [a, c]);
  }

  lemma {:induction false} TwoOccurrences(strong: seq<Fact>, reps: seq<Fact>)
    requires Filter(strong, IsStrongIndependentSupport) == Filter(strong, IsIndependentSupport) == strong
    requires ByOccurrence(strong) == reps && |reps| == 2
    ensures SupportQualifies(RepeatedIndependentPerformance, strong, None).met <==> |KnownContexts(reps)| >= 2
  {
    assert SupportQualifies(RepeatedIndependentPerformance, strong, None) == RepeatedVerdict(strong, strong);
  }

  lemma {:induction false} ContextCounts(a: Fact, b: Fact, c: Fact)
    requires ContextOf(b.evidence) == ContextOf(c.evidence) != ContextOf(a.evidence)
    requires LEGACY_CONTEXT !in {ContextOf(a.evidence), ContextOf(b.evidence)}
    ensures |KnownContexts([b, c])| < 2 && |KnownContexts([a, c])| == 2
  {
    var q, p := ContextOf(b.evidence), ContextOf(a.evidence);
    SubsetSize(KnownContexts([b, c]), {q});
    assert KnownContexts([a, c]) == {p, q} by {
      assert a in [a, c] && c in [a, c];
    }
  }

  lemma {:induction false} AllKept(a: Fact, b: Fact, c: Fact, p: Fact -> bool)
    requires p(a) && p(b) && p(c)
    ensures Filter([a, b, c], p) == [a, b, c]
  {
    FilterAppend([], a, p);
    FilterAppend([a], b, p);
    FilterAppend([a, b], c, p);
    assert [] + [a] == [a] && [a] + [b] == [a, b] && [a, b] + [c] == [a, b, c];
  }

  lemma {:induction false} KeptOfThree(a: Fact, b: Fact, c: Fact)
    requires IsStrongIndependentSupport(a) && IsStrongIndependentSupport(b) && IsStrongIndependentSupport(c)
    requires OccurrenceOf(a.evidence) == OccurrenceOf(b.evidence) != OccurrenceOf(c.evidence)
    ensures Filter([a, b, c], IsStrongIndependentSupport) == Filter([a, b, c], IsIndependentSupport) == [a, b, c]
    ensures ByOccurrence([a, b, c]) == [b, c]
  {
    AllKept(a, b, c, IsStrongIndependentSupport);
    AllKept(a, b, c, IsIndependentSupport);
    assert [a, b, c][..2] == [a, b] && [a, b][..1] == [a];
    assert ByOccurrence([a]) == [a];
    assert ByOccurrence([a, b]) == [b];
  }
}

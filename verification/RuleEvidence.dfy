/**
 Which evidence decides a rule: the first qualifying fact, or the last facts of the occurrences that come first.  It
 meets the rule by itself, except that the repeated rule can name evidence of one context only.
 */
module RuleEvidence {
  import opened Base
  import opened Model
  import opened ActiveFacts
  import opened Criteria
  import opened Meaning
  import opened OccurrenceDictionary
  import opened RuleLaws
  import opened Downgrade

  // ---- The order of the dictionary ----------------------------------------------------------------

  /** A qualifying fact of occurrence `o` comes before every one of occurrence `later`. */
  ghost predicate SeenBefore(facts: seq<Fact>, p: Fact -> bool, o: Occurrence, later: Occurrence) {
    exists m :: 0 <= m < |facts| && SeenAt(facts, p, o, later, m)
  }

  ghost predicate SeenAt(facts: seq<Fact>, p: Fact -> bool, o: Occurrence, later: Occurrence, m: nat)
    requires m < |facts|
  {
    && p(facts[m]) && OccurrenceOf(facts[m].evidence) == o
    && forall k :: 0 <= k <= m && p(facts[k]) ==> OccurrenceOf(facts[k].evidence) != later
  }

  /** The occurrences whose first qualifying fact comes before that of `o`. */
  ghost function Ahead(facts: seq<Fact>, p: Fact -> bool, o: Occurrence): set<Occurrence> {
    set f | f in facts && p(f) && SeenBefore(facts, p, OccurrenceOf(f.evidence), o) :: OccurrenceOf(f.evidence)
  }

  /** The last qualifying fact of one of the `n` occurrences that come first. */
  ghost predicate Leads(facts: seq<Fact>, p: Fact -> bool, n: nat, f: Fact) {
    LastOfOccurrence(facts, p, f) && |Ahead(facts, p, OccurrenceOf(f.evidence))| < n
  }

  ghost predicate InFirstSeenOrder(facts: seq<Fact>, p: Fact -> bool, reps: seq<Fact>) {
    forall i, j :: 0 <= i < |reps| && 0 <= j < |reps| ==>
      (SeenBefore(facts, p, OccurrenceOf(reps[i].evidence), OccurrenceOf(reps[j].evidence)) <==> i < j)
  }

  lemma {:induction false} SeenBeforeStep(facts: seq<Fact>, p: Fact -> bool, o: Occurrence, later: Occurrence)
    requires facts != []
    ensures var init, x := facts[..|facts| - 1], facts[|facts| - 1];
      SeenBefore(facts, p, o, later) <==>
        || SeenBefore(init, p, o, later)
        || (p(x) && OccurrenceOf(x.evidence) == o && SeenAt(facts, p, o, later, |facts| - 1))
  {
    var init := facts[..|facts| - 1];
    forall m: nat | m < |init| ensures SeenAt(facts, p, o, later, m) <==> SeenAt(init, p, o, later, m) {
      assert forall k :: 0 <= k <= m ==> init[k] == facts[k];
    }
    if SeenBefore(init, p, o, later) {
      var m :| 0 <= m < |init| && SeenAt(init, p, o, later, m);
      assert SeenAt(facts, p, o, later, m);
    }
    if SeenBefore(facts, p, o, later) {
      var m :| 0 <= m < |facts| && SeenAt(facts, p, o, later, m);
      assert m < |init| ==> SeenAt(init, p, o, later, m);
    }
  }

  ghost predicate Occurs(facts: seq<Fact>, p: Fact -> bool, o: Occurrence) {
    exists f :: f in facts && p(f) && OccurrenceOf(f.evidence) == o
  }

  lemma {:induction false} KeptOccurs(facts: seq<Fact>, p: Fact -> bool, o: Occurrence)
    ensures o in Occurrences(ByOccurrence(Filter(facts, p))) <==> Occurs(facts, p, o)
  {
    ByOccurrenceCovers(Filter(facts, p));
    if Occurs(facts, p, o) {
      var f :| f in facts && p(f) && OccurrenceOf(f.evidence) == o;
      assert f in Filter(facts, p);
    }
  }

  /** Nothing is seen before an occurrence that has been seen already by a fact that comes later. */
  lemma {:induction false} SeenBeforeKnown(facts: seq<Fact>, p: Fact -> bool, o: Occurrence, later: Occurrence)
    requires facts != [] && Occurs(facts[..|facts| - 1], p, later)
    ensures SeenBefore(facts, p, o, later) <==> SeenBefore(facts[..|facts| - 1], p, o, later)
  {
    SeenBeforeStep(facts, p, o, later);
    var f :| f in facts[..|facts| - 1] && p(f) && OccurrenceOf(f.evidence) == later;
    var k :| 0 <= k < |facts| - 1 && facts[k] == f;
  }

  /** Every occurrence seen already is seen before a new one. */
  lemma {:induction false} SeenBeforeNew(facts: seq<Fact>, p: Fact -> bool, o: Occurrence, later: Occurrence)
    requires facts != [] && !Occurs(facts[..|facts| - 1], p, later)
    requires OccurrenceOf(facts[|facts| - 1].evidence) == later
    ensures SeenBefore(facts, p, o, later) <==> Occurs(facts[..|facts| - 1], p, o)
  {
    var init := facts[..|facts| - 1];
    SeenBeforeStep(facts, p, o, later);
    if Occurs(init, p, o) {
      var f :| f in init && p(f) && OccurrenceOf(f.evidence) == o;
      var m :| 0 <= m < |init| && init[m] == f;
      assert SeenAt(init, p, o, later, m);
    }
  }

  /** A fact put among representatives moves no occurrence, and a new occurrence comes last. */
  lemma {:induction false} PutInPlace(reps: seq<Fact>, x: Fact, i: nat)
    requires DistinctOccurrences(reps) && i < |Put(reps, x)|
    ensures i < |reps| ==> OccurrenceOf(Put(reps, x)[i].evidence) == OccurrenceOf(reps[i].evidence)
    ensures i >= |reps| ==> IndexOf(reps, OccurrenceOf(x.evidence)) == |reps| && Put(reps, x)[i] == x
  {}

  /** One more fact keeps what is listed before in order. */
  lemma {:induction false} OrderedBefore(facts: seq<Fact>, p: Fact -> bool, i: nat, j: nat)
    requires facts != [] && p(facts[|facts| - 1])
    requires InFirstSeenOrder(facts[..|facts| - 1], p, ByOccurrence(Filter(facts[..|facts| - 1], p)))
    requires var reps := ByOccurrence(Filter(facts[..|facts| - 1], p));
      i < |Put(reps, facts[|facts| - 1])| && j < |reps|
    ensures var reps := Put(ByOccurrence(Filter(facts[..|facts| - 1], p)), facts[|facts| - 1]);
      SeenBefore(facts, p, OccurrenceOf(reps[i].evidence), OccurrenceOf(reps[j].evidence)) <==> i < j
  {
    var init, x := facts[..|facts| - 1], facts[|facts| - 1];
    var before := ByOccurrence(Filter(init, p));
    PutInPlace(before, x, i);
    PutInPlace(before, x, j);
    KeptAt(init, p, j);
    var o := OccurrenceOf(Put(before, x)[i].evidence);
    SeenBeforeKnown(facts, p, o, OccurrenceOf(before[j].evidence));
    if i >= |before| { NewIsUnseen(init, p, x, OccurrenceOf(before[j].evidence)); }
  }

  /** A new occurrence is listed last. */
  lemma {:induction false} OrderedLast(facts: seq<Fact>, p: Fact -> bool, i: nat)
    requires facts != [] && p(facts[|facts| - 1])
    requires var reps := ByOccurrence(Filter(facts[..|facts| - 1], p));
      i <= |reps| < |Put(reps, facts[|facts| - 1])|
    ensures var reps := ByOccurrence(Filter(facts, p));
      |reps| > i && (SeenBefore(facts, p, OccurrenceOf(reps[i].evidence), OccurrenceOf(reps[|reps| - 1].evidence))
        <==> i < |reps| - 1)
  {
    var init, x := facts[..|facts| - 1], facts[|facts| - 1];
    var before, reps := ByOccurrence(Filter(init, p)), ByOccurrence(Filter(facts, p));
    KeptStep(facts, p);
    NewIsUnseen(init, p, x, OccurrenceOf(x.evidence));
    SeenBeforeNew(facts, p, OccurrenceOf(reps[i].evidence), OccurrenceOf(x.evidence));
    if i < |before| { KeptAt(init, p, i); }
  }

  lemma {:induction false} OrderUnmoved(facts: seq<Fact>, p: Fact -> bool)
    requires facts != [] && !p(facts[|facts| - 1])
    requires InFirstSeenOrder(facts[..|facts| - 1], p, ByOccurrence(Filter(facts[..|facts| - 1], p)))
    ensures InFirstSeenOrder(facts, p, ByOccurrence(Filter(facts, p)))
  {
    var reps := ByOccurrence(Filter(facts, p));
    KeptStep(facts, p);
    forall i, j | 0 <= i < |reps| && 0 <= j < |reps|
      ensures SeenBefore(facts, p, OccurrenceOf(reps[i].evidence), OccurrenceOf(reps[j].evidence)) <==> i < j
    {
      SeenBeforeStep(facts, p, OccurrenceOf(reps[i].evidence), OccurrenceOf(reps[j].evidence));
    }
  }

  /** The dictionary lists occurrences in the order in which they are first seen. */
  lemma {:induction false} KeptInOrder(facts: seq<Fact>, p: Fact -> bool)
    ensures InFirstSeenOrder(facts, p, ByOccurrence(Filter(facts, p)))
  {
    if facts != [] {
      KeptInOrder(facts[..|facts| - 1], p);
      if p(facts[|facts| - 1]) { OrderMoves(facts, p); } else { OrderUnmoved(facts, p); }
    }
  }

  lemma {:induction false} OrderMoves(facts: seq<Fact>, p: Fact -> bool)
    requires facts != [] && p(facts[|facts| - 1])
    requires InFirstSeenOrder(facts[..|facts| - 1], p, ByOccurrence(Filter(facts[..|facts| - 1], p)))
    ensures InFirstSeenOrder(facts, p, ByOccurrence(Filter(facts, p)))
  {
    var before, reps := ByOccurrence(Filter(facts[..|facts| - 1], p)), ByOccurrence(Filter(facts, p));
    KeptStep(facts, p);
    forall i, j | 0 <= i < |reps| && 0 <= j < |reps|
      ensures SeenBefore(facts, p, OccurrenceOf(reps[i].evidence), OccurrenceOf(reps[j].evidence)) <==> i < j
    {
      if j < |before| { OrderedBefore(facts, p, i, j); } else { OrderedLast(facts, p, i); }
    }
  }

  lemma {:induction false} KeptAt(facts: seq<Fact>, p: Fact -> bool, i: nat)
    requires i < |ByOccurrence(Filter(facts, p))|
    ensures Occurs(facts, p, OccurrenceOf(ByOccurrence(Filter(facts, p))[i].evidence))
  {
    KeptOccurs(facts, p, OccurrenceOf(ByOccurrence(Filter(facts, p))[i].evidence));
    assert ByOccurrence(Filter(facts, p))[i] in ByOccurrence(Filter(facts, p));
  }

  lemma {:induction false} NewIsUnseen(facts: seq<Fact>, p: Fact -> bool, x: Fact, later: Occurrence)
    requires var reps := ByOccurrence(Filter(facts, p)); IndexOf(reps, OccurrenceOf(x.evidence)) == |reps|
    ensures !Occurs(facts, p, OccurrenceOf(x.evidence)) && !SeenBefore(facts, p, OccurrenceOf(x.evidence), later)
  {
    KeptOccurs(facts, p, OccurrenceOf(x.evidence));
  }

  /** The occurrences ahead of the `k`-th one listed are those listed before it. */
  lemma {:induction false} AheadOf(facts: seq<Fact>, p: Fact -> bool, k: nat)
    requires k < |ByOccurrence(Filter(facts, p))|
    ensures var reps := ByOccurrence(Filter(facts, p));
      Ahead(facts, p, OccurrenceOf(reps[k].evidence)) == Occurrences(reps[..k])
  {
    var reps := ByOccurrence(Filter(facts, p));
    var ahead := Ahead(facts, p, OccurrenceOf(reps[k].evidence));
    KeptInOrder(facts, p);
    forall o ensures o in ahead <==> o in Occurrences(reps[..k]) {
      if o in ahead {
        KeptOccurs(facts, p, o);
        var j :| 0 <= j < |reps| && OccurrenceOf(reps[j].evidence) == o;
        assert reps[..k][j] in reps[..k];
      }
      if o in Occurrences(reps[..k]) {
        var j :| 0 <= j < k && OccurrenceOf(reps[j].evidence) == o;
        KeptAt(facts, p, j);
        var f :| f in facts && p(f) && OccurrenceOf(f.evidence) == o;
      }
    }
  }

  /** The first entries of the dictionary are the facts that lead. */
  lemma {:induction false} FirstEntriesLead(facts: seq<Fact>, p: Fact -> bool, n: nat, f: Fact)
    ensures f in Take(ByOccurrence(Filter(facts, p)), n) <==> Leads(facts, p, n, f)
  {
    var reps := ByOccurrence(Filter(facts, p));
    DictionaryKeepsLast(facts, p, f);
    if f in reps {
      var k :| 0 <= k < |reps| && reps[k] == f;
      AheadOf(facts, p, k);
      DistinctCount(reps[..k]);
      assert k < n ==> Take(reps, n)[k] == f;
      if f in Take(reps, n) {
        var j :| 0 <= j < |Take(reps, n)| && reps[j] == f;
        assert j == k;
      }
    }
  }

  // ---- The verdict, exactly -----------------------------------------------------------------------

  ghost predicate AnyFact(facts: seq<Fact>, p: Fact -> bool) { exists f :: f in facts && p(f) }

  ghost function OccurrencesWith(facts: seq<Fact>, p: Fact -> bool): set<Occurrence> {
    set f | f in facts && p(f) :: OccurrenceOf(f.evidence)
  }

  ghost predicate First(facts: seq<Fact>, p: Fact -> bool, f: Fact) {
    exists i :: 0 <= i < |facts| && facts[i] == f && p(f) && forall j :: 0 <= j < i ==> !p(facts[j])
  }

  /** The named evidence is that of the first qualifying fact, if there is one. */
  ghost predicate NamesFirst(facts: seq<Fact>, p: Fact -> bool, ids: set<Id>) {
    if AnyFact(facts, p) then exists f :: First(facts, p, f) && ids == {f.evidence.id} else ids == {}
  }

  /** The named evidence is that of the last facts of the first `n` occurrences. */
  ghost predicate NamesLeads(facts: seq<Fact>, p: Fact -> bool, n: nat, ids: set<Id>) {
    ids == set f | f in facts && Leads(facts, p, n, f) :: f.evidence.id
  }

  /** The last facts of two occurrences are apart. */
  ghost predicate LastApart(facts: seq<Fact>, p: Fact -> bool) {
    exists f, g :: LastOfOccurrence(facts, p, f) && LastOfOccurrence(facts, p, g) && Apart(f, g)
  }

  /** A strong fact, and independent ones of three occurrences in two contexts. */
  ghost predicate RepeatedMixed(facts: seq<Fact>) {
    && AnyFact(facts, PerformsStrongly) && |OccurrencesWith(facts, PerformsAlone)| >= 3
    && LastApart(facts, PerformsAlone)
  }

  ghost predicate Meets(rule: Rule, facts: seq<Fact>, c: Option<Criterion>) {
    match rule
    case Exposure => AnyFact(facts, Exposes)
    case GuidedPerformance => AnyFact(facts, Performs)
    case IndependentPerformance => AnyFact(facts, PerformsStrongly) || |OccurrencesWith(facts, PerformsAlone)| >= 2
    case RepeatedIndependentPerformance => LastApart(facts, PerformsStrongly) || RepeatedMixed(facts)
    case AuthoritativeAssessment => AnyFact(facts, f => Certifies(f, c))
  }

  /** The evidence a verdict names, met or not. */
  ghost predicate Names(rule: Rule, facts: seq<Fact>, c: Option<Criterion>, ids: set<Id>) {
    match rule
    case Exposure => NamesFirst(facts, Exposes, ids)
    case GuidedPerformance => NamesFirst(facts, Performs, ids)
    case IndependentPerformance =>
      if AnyFact(facts, PerformsStrongly) then NamesFirst(facts, PerformsStrongly, ids)
      else NamesLeads(facts, PerformsAlone, 2, ids)
    case RepeatedIndependentPerformance =>
      if LastApart(facts, PerformsStrongly) then NamesLeads(facts, PerformsStrongly, 2, ids)
      else if RepeatedMixed(facts) then NamesLeads(facts, PerformsAlone, 3, ids)
      else ids == {}
    case AuthoritativeAssessment => NamesFirst(facts, f => Certifies(f, c), ids)
  }

  lemma {:induction false} FirstOfFilter(facts: seq<Fact>, p: Fact -> bool)
    ensures Filter(facts, p) == [] <==> !AnyFact(facts, p)
    ensures Filter(facts, p) != [] ==> First(facts, p, Filter(facts, p)[0])
  {
    if facts != [] {
      var init, x := facts[..|facts| - 1], facts[|facts| - 1];
      FirstOfFilter(init, p);
      assert forall f :: f in facts <==> f in init || f == x;
      if Filter(init, p) != [] {
        var f := Filter(init, p)[0];
        var i :| 0 <= i < |init| && init[i] == f && p(f) && forall j :: 0 <= j < i ==> !p(init[j]);
        assert facts[i] == f && forall j :: 0 <= j < i ==> facts[j] == init[j];
      } else if p(x) {
        assert forall j :: 0 <= j < |init| ==> facts[j] == init[j] && init[j] in init;
      }
    }
  }

  lemma {:induction false} FirstIsNamed(facts: seq<Fact>, p: Fact -> bool)
    ensures var v := FirstOnly(Filter(facts, p)); (v.met <==> AnyFact(facts, p)) && NamesFirst(facts, p, v.ids)
  {
    var kept := Filter(facts, p);
    FirstOfFilter(facts, p);
    if kept != [] { assert EvidenceIds(Take(kept, 1)) == {kept[0].evidence.id}; }
  }

  lemma {:induction false} LeadsAreNamed(facts: seq<Fact>, p: Fact -> bool, n: nat)
    ensures NamesLeads(facts, p, n, EvidenceIds(Take(ByOccurrence(Filter(facts, p)), n)))
  {
    var kept := Take(ByOccurrence(Filter(facts, p)), n);
    forall f ensures f in kept <==> f in facts && Leads(facts, p, n, f) {
      FirstEntriesLead(facts, p, n, f);
    }
  }

  lemma {:induction false} KeptCount(facts: seq<Fact>, p: Fact -> bool)
    ensures |ByOccurrence(Filter(facts, p))| == |OccurrencesWith(facts, p)|
  {
    RepresentativesSuffice(Filter(facts, p));
    assert OccurrencesIn(Elements(Filter(facts, p))) == OccurrencesWith(facts, p);
  }

  lemma {:induction false} KeptApart(facts: seq<Fact>, p: Fact -> bool)
    ensures var reps := ByOccurrence(Filter(facts, p)); |KnownContexts(reps)| >= 2 <==> LastApart(facts, p)
    ensures LastApart(facts, p) ==> |ByOccurrence(Filter(facts, p))| >= 2
  {
    var reps := ByOccurrence(Filter(facts, p));
    RuleLaws.ContextsMean(reps);
    forall f ensures f in reps <==> LastOfOccurrence(facts, p, f) { DictionaryKeepsLast(facts, p, f); }
  }

  lemma {:induction false} IndependentIsExact(facts: seq<Fact>)
    ensures var v := IndependentVerdict(Filter(facts, PerformsStrongly), Filter(facts, PerformsAlone));
      (v.met <==> Meets(IndependentPerformance, facts, None)) && Names(IndependentPerformance, facts, None, v.ids)
  {
    FirstOfFilter(facts, PerformsStrongly);
    LeadsAreNamed(facts, PerformsAlone, 2);
    KeptCount(facts, PerformsAlone);
  }

  lemma {:induction false} RepeatedIsExact(facts: seq<Fact>)
    ensures var v := RepeatedVerdict(Filter(facts, PerformsStrongly), Filter(facts, PerformsAlone));
      (v.met <==> Meets(RepeatedIndependentPerformance, facts, None))
        && Names(RepeatedIndependentPerformance, facts, None, v.ids)
  {
    FirstOfFilter(facts, PerformsStrongly);
    KeptApart(facts, PerformsStrongly);
    KeptApart(facts, PerformsAlone);
    KeptCount(facts, PerformsAlone);
    LeadsAreNamed(facts, PerformsStrongly, 2);
    LeadsAreNamed(facts, PerformsAlone, 3);
  }

  lemma {:induction false} FiltersMean(facts: seq<Fact>, c: Option<Criterion>)
    ensures Filter(facts, IsWeakSupport) == Filter(facts, Exposes)
    ensures Filter(facts, IsModerateSupport) == Filter(facts, Performs)
    ensures Filter(facts, IsIndependentSupport) == Filter(facts, PerformsAlone)
    ensures Filter(facts, IsStrongIndependentSupport) == Filter(facts, PerformsStrongly)
    ensures AuthoritativeSupports(facts, c) == Filter(facts, f => Certifies(f, c))
  {
    forall f: Fact
      ensures IsWeakSupport(f) == Exposes(f) && IsModerateSupport(f) == Performs(f)
      ensures IsIndependentSupport(f) == PerformsAlone(f) && IsStrongIndependentSupport(f) == PerformsStrongly(f)
      ensures IsAuthoritativeSupport(f, c) == Certifies(f, c)
    {
      GradesMean(f, c);
    }
    FilterAgrees(facts, IsWeakSupport, Exposes);
    FilterAgrees(facts, IsModerateSupport, Performs);
    FilterAgrees(facts, IsIndependentSupport, PerformsAlone);
    FilterAgrees(facts, IsStrongIndependentSupport, PerformsStrongly);
    FilterAgrees(facts, (f: Fact) => IsAuthoritativeSupport(f, c), f => Certifies(f, c));
  }

  /** When a rule is met, and which evidence it names, on every list of facts. */
  lemma {:induction false} VerdictIsExact(rule: Rule, facts: seq<Fact>, c: Option<Criterion>)
    ensures var v := SupportQualifies(rule, facts, c);
      (v.met <==> Meets(rule, facts, c)) && Names(rule, facts, c, v.ids)
  {
    FiltersMean(facts, c);
    match rule {
      case Exposure => FirstIsNamed(facts, Exposes);
      case GuidedPerformance => FirstIsNamed(facts, Performs);
      case AuthoritativeAssessment => FirstIsNamed(facts, f => Certifies(f, c));
      case IndependentPerformance => IndependentIsExact(facts);
      case RepeatedIndependentPerformance => RepeatedIsExact(facts);
    }
  }

  // ---- What the named evidence is enough for ------------------------------------------------------

  ghost function Named(facts: seq<Fact>, ids: set<Id>): set<Fact> { set f | f in facts && f.evidence.id in ids }

  ghost predicate LeadsApart(facts: seq<Fact>, p: Fact -> bool, n: nat) {
    exists f, g :: Leads(facts, p, n, f) && Leads(facts, p, n, g) && Apart(f, g)
  }

  /** Whether the entries the repeated rule names are in two contexts, and one of them strong. */
  ghost predicate NamedApart(facts: seq<Fact>) {
    if LastApart(facts, PerformsStrongly) then LeadsApart(facts, PerformsStrongly, 2)
    else
      && LeadsApart(facts, PerformsAlone, 3)
      && exists f :: Leads(facts, PerformsAlone, 3, f) && f.evidence.strength == Strong
  }

  /** How much evidence a met rule names. */
  ghost function Asked(rule: Rule, facts: seq<Fact>): nat {
    if rule == RepeatedIndependentPerformance then (if LastApart(facts, PerformsStrongly) then 2 else 3)
    else if rule == IndependentPerformance && !AnyFact(facts, PerformsStrongly) then 2
    else 1
  }

  /** The first entries of a dictionary, with enough of them. */
  ghost predicate Selected(facts: seq<Fact>, p: Fact -> bool, n: nat, sel: seq<Fact>) {
    && DistinctOccurrences(sel) && |sel| == n
    && forall f :: f in sel <==> Leads(facts, p, n, f)
  }

  lemma {:induction false} Select(facts: seq<Fact>, p: Fact -> bool, n: nat) returns (sel: seq<Fact>)
    requires |OccurrencesWith(facts, p)| >= n
    ensures Selected(facts, p, n, sel) && NamesLeads(facts, p, n, EvidenceIds(sel))
    ensures forall f :: f in sel ==> f in facts && p(f)
  {
    sel := Take(ByOccurrence(Filter(facts, p)), n);
    KeptCount(facts, p);
    LeadsAreNamed(facts, p, n);
    forall f ensures f in sel <==> Leads(facts, p, n, f) { FirstEntriesLead(facts, p, n, f); }
  }

  /** A selected fact with the evidence of `f`. */
  lemma {:induction false} SelectedFor(facts: seq<Fact>, sel: seq<Fact>, f: Fact) returns (g: Fact)
    requires ConsistentFacts(facts) && f in Named(facts, EvidenceIds(sel)) && forall h :: h in sel ==> h in facts
    ensures g in sel && g.evidence == f.evidence
  {
    g :| g in sel && g.evidence.id == f.evidence.id;
  }

  ghost predicate HasApart(sel: seq<Fact>) { exists f, g :: f in sel && g in sel && Apart(f, g) }

  ghost predicate HasStrong(sel: seq<Fact>) { exists f :: f in sel && f.evidence.strength == Strong }

  lemma {:induction false} SelectionOccurs(facts: seq<Fact>, sel: seq<Fact>)
    requires ConsistentFacts(facts) && DistinctOccurrences(sel)
    requires forall f :: f in sel ==> f in facts && PerformsAlone(f)
    ensures |OccurrencesIn(IndependentIn(Named(facts, EvidenceIds(sel))))| == |sel|
  {
    var named := IndependentIn(Named(facts, EvidenceIds(sel)));
    forall o ensures o in OccurrencesIn(named) <==> o in Occurrences(sel) {
      if o in OccurrencesIn(named) {
        var f :| f in named && OccurrenceOf(f.evidence) == o;
        var g := SelectedFor(facts, sel, f);
      }
      if o in Occurrences(sel) {
        var f :| f in sel && OccurrenceOf(f.evidence) == o;
        assert f in named;
      }
    }
    DistinctCount(sel);
    assert OccurrencesIn(named) == Occurrences(sel);
  }

  lemma {:induction false} SelectionContexts(facts: seq<Fact>, sel: seq<Fact>)
    requires ConsistentFacts(facts) && forall f :: f in sel ==> f in facts && PerformsAlone(f)
    ensures InTwoContexts(IndependentIn(Named(facts, EvidenceIds(sel)))) <==> HasApart(sel)
  {
    var named := IndependentIn(Named(facts, EvidenceIds(sel)));
    if InTwoContexts(named) {
      var f, g :| f in named && g in named && Apart(f, g);
      var f' := SelectedFor(facts, sel, f);
      var g' := SelectedFor(facts, sel, g);
      assert Apart(f', g');
    }
    if HasApart(sel) {
      var f, g :| f in sel && g in sel && Apart(f, g);
      assert f in named && g in named;
    }
  }

  lemma {:induction false} SelectionStrong(facts: seq<Fact>, sel: seq<Fact>)
    requires ConsistentFacts(facts) && forall f :: f in sel ==> f in facts && PerformsAlone(f)
    ensures StrongIn(Named(facts, EvidenceIds(sel))) != {} <==> HasStrong(sel)
  {
    var strong := StrongIn(Named(facts, EvidenceIds(sel)));
    if strong != {} {
      var f :| f in strong;
      var g := SelectedFor(facts, sel, f);
    }
    if HasStrong(sel) {
      var f :| f in sel && f.evidence.strength == Strong;
      assert f in strong;
    }
  }

  /** Facts in two contexts of a set of strong facts are so of the independent ones. */
  lemma {:induction false} StrongAreIndependent(s: set<Fact>)
    ensures StrongIn(s) <= IndependentIn(s) && (InTwoContexts(StrongIn(s)) ==> InTwoContexts(IndependentIn(s)))
    ensures InTwoContexts(StrongIn(s)) ==> StrongIn(s) != {}
  {
    if InTwoContexts(StrongIn(s)) {
      var f, g :| f in StrongIn(s) && g in StrongIn(s) && Apart(f, g);
      assert f in IndependentIn(s) && g in IndependentIn(s);
    }
  }

  lemma {:induction false} SelectedApart(facts: seq<Fact>, p: Fact -> bool, n: nat, sel: seq<Fact>)
    requires Selected(facts, p, n, sel)
    ensures HasApart(sel) <==> LeadsApart(facts, p, n)
    ensures HasStrong(sel) <==> exists f :: Leads(facts, p, n, f) && f.evidence.strength == Strong
  {
    if LeadsApart(facts, p, n) {
      var f, g :| Leads(facts, p, n, f) && Leads(facts, p, n, g) && Apart(f, g);
      assert f in sel && g in sel;
    }
    if HasApart(sel) {
      var f, g :| f in sel && g in sel && Apart(f, g);
      assert Leads(facts, p, n, f) && Leads(facts, p, n, g);
    }
  }

  lemma {:induction false} SelectionIds(facts: seq<Fact>, sel: seq<Fact>)
    requires ConsistentFacts(facts) && DistinctOccurrences(sel) && forall f :: f in sel ==> f in facts
    ensures |EvidenceIds(sel)| == |sel|
  {
    DistinctOccurrenceIds(sel);
  }

  lemma {:induction false} StrongSelectionSuffices(facts: seq<Fact>, sel: seq<Fact>)
    requires ConsistentFacts(facts) && DistinctOccurrences(sel) && |sel| == 2
    requires forall f :: f in sel ==> f in facts && PerformsStrongly(f)
    ensures RuleHolds(RepeatedIndependentPerformance, Named(facts, EvidenceIds(sel)), None) <==> HasApart(sel)
  {
    var named := Named(facts, EvidenceIds(sel));
    SelectionOccurs(facts, sel);
    SelectionContexts(facts, sel);
    StrongAreIndependent(named);
    if HasApart(sel) {
      var f, g :| f in sel && g in sel && Apart(f, g);
      assert f in StrongIn(named) && g in StrongIn(named);
    }
  }

  lemma {:induction false} MixedSelectionSuffices(facts: seq<Fact>, sel: seq<Fact>)
    requires ConsistentFacts(facts) && DistinctOccurrences(sel) && |sel| == 3
    requires forall f :: f in sel ==> f in facts && PerformsAlone(f)
    ensures RuleHolds(RepeatedIndependentPerformance, Named(facts, EvidenceIds(sel)), None) <==>
      HasApart(sel) && HasStrong(sel)
  {
    SelectionOccurs(facts, sel);
    SelectionContexts(facts, sel);
    SelectionStrong(facts, sel);
    StrongAreIndependent(Named(facts, EvidenceIds(sel)));
  }

  lemma {:induction false} RepeatedSuffices(facts: seq<Fact>, ids: set<Id>)
    requires ConsistentFacts(facts)
    requires Meets(RepeatedIndependentPerformance, facts, None)
    requires Names(RepeatedIndependentPerformance, facts, None, ids)
    ensures |ids| == Asked(RepeatedIndependentPerformance, facts)
    ensures RuleHolds(RepeatedIndependentPerformance, Named(facts, ids), None) <==> NamedApart(facts)
  {
    if LastApart(facts, PerformsStrongly) {
      KeptApart(facts, PerformsStrongly);
      KeptCount(facts, PerformsStrongly);
      var sel := Select(facts, PerformsStrongly, 2);
      SelectionIds(facts, sel);
      StrongSelectionSuffices(facts, sel);
      SelectedApart(facts, PerformsStrongly, 2, sel);
    } else {
      var sel := Select(facts, PerformsAlone, 3);
      SelectionIds(facts, sel);
      MixedSelectionSuffices(facts, sel);
      SelectedApart(facts, PerformsAlone, 3, sel);
    }
  }

  lemma {:induction false} FirstSuffices(rule: Rule, facts: seq<Fact>, c: Option<Criterion>, ids: set<Id>)
    requires rule !in {RepeatedIndependentPerformance, IndependentPerformance}
    requires Meets(rule, facts, c) && Names(rule, facts, c, ids)
    ensures |ids| == 1 && RuleHolds(rule, Named(facts, ids), c)
  {
    match rule {
      case Exposure =>
        var f :| First(facts, Exposes, f) && ids == {f.evidence.id};
        assert f in Named(facts, ids);
      case GuidedPerformance =>
        var f :| First(facts, Performs, f) && ids == {f.evidence.id};
        assert f in Named(facts, ids);
      case AuthoritativeAssessment =>
        var f :| First(facts, f => Certifies(f, c), f) && ids == {f.evidence.id};
        assert f in Named(facts, ids);
    }
  }

  lemma {:induction false} IndependentSuffices(facts: seq<Fact>, ids: set<Id>)
    requires ConsistentFacts(facts)
    requires Meets(IndependentPerformance, facts, None) && Names(IndependentPerformance, facts, None, ids)
    ensures |ids| == Asked(IndependentPerformance, facts)
    ensures RuleHolds(IndependentPerformance, Named(facts, ids), None)
  {
    if AnyFact(facts, PerformsStrongly) {
      var f :| First(facts, PerformsStrongly, f) && ids == {f.evidence.id};
      assert f in StrongIn(Named(facts, ids));
    } else {
      var sel := Select(facts, PerformsAlone, 2);
      SelectionIds(facts, sel);
      SelectionOccurs(facts, sel);
    }
  }

  /**
   A met rule names as much evidence as it asks for, and the facts of that evidence meet it by themselves; those the
   repeated rule names do so exactly when they are apart.
   */
  lemma {:induction false} NamedEvidenceSuffices(rule: Rule, facts: seq<Fact>, c: Option<Criterion>)
    requires ConsistentFacts(facts) && SupportQualifies(rule, facts, c).met
    ensures var ids := SupportQualifies(rule, facts, c).ids;
      && |ids| == Asked(rule, facts)
      && (RuleHolds(rule, Named(facts, ids), c) <==> (rule == RepeatedIndependentPerformance ==> NamedApart(facts)))
  {
    var ids := SupportQualifies(rule, facts, c).ids;
    VerdictIsExact(rule, facts, c);
    match rule {
      case IndependentPerformance => IndependentSuffices(facts, ids);
      case RepeatedIndependentPerformance => RepeatedSuffices(facts, ids);
      case _ => FirstSuffices(rule, facts, c, ids);
    }
  }

  ghost predicate StrongTrio(a: Fact, b: Fact, c: Fact) {
    && PerformsStrongly(a) && PerformsStrongly(b) && PerformsStrongly(c)
    && DistinctOccurrences([a, b, c]) && ConsistentFacts([a, b, c])
  }

  lemma {:induction false} ThirdDoesNotLead(a: Fact, b: Fact, c: Fact)
    requires StrongTrio(a, b, c)
    ensures !Leads([a, b, c], PerformsStrongly, 2, c)
  {
    var facts := [a, b, c];
    var x, y, z := OccurrenceOf(facts[0].evidence), OccurrenceOf(facts[1].evidence), OccurrenceOf(facts[2].evidence);
    assert SeenAt(facts, PerformsStrongly, x, z, 0) && SeenAt(facts, PerformsStrongly, y, z, 1);
    SubsetSize({x, y}, Ahead(facts, PerformsStrongly, z));
  }

  lemma {:induction false} TrioIsApart(a: Fact, b: Fact, c: Fact)
    requires StrongTrio(a, b, c) && Apart(a, c)
    ensures LastApart([a, b, c], PerformsStrongly)
  {
    var facts := [a, b, c];
    assert facts[0] == a && facts[1] == b && facts[2] == c;
    assert LastOfOccurrence(facts, PerformsStrongly, facts[0]);
    assert LastOfOccurrence(facts, PerformsStrongly, facts[2]);
  }

  lemma {:induction false} FirstTwoAreTogether(a: Fact, b: Fact, c: Fact)
    requires StrongTrio(a, b, c) && ContextOf(a.evidence) == ContextOf(b.evidence)
    ensures !LeadsApart([a, b, c], PerformsStrongly, 2)
  {
    ThirdDoesNotLead(a, b, c);
    forall f, g | Leads([a, b, c], PerformsStrongly, 2, f) && Leads([a, b, c], PerformsStrongly, 2, g)
      ensures !Apart(f, g)
    {
      assert f in [a, b] && g in [a, b];
    }
  }

  /**
   Three strong facts, the third alone in another context: the repeated rule is met because of it, but the evidence
   named is that of the first two, which does not meet the rule.
   */
  lemma {:induction false} NamedEvidenceCanFallShort(a: Fact, b: Fact, c: Fact)
    requires StrongTrio(a, b, c) && Apart(a, c) && ContextOf(a.evidence) == ContextOf(b.evidence)
    ensures var facts := [a, b, c]; var v := SupportQualifies(RepeatedIndependentPerformance, facts, None);
      v.met && !RuleHolds(RepeatedIndependentPerformance, Named(facts, v.ids), None)
  {
    TrioIsApart(a, b, c);
    FirstTwoAreTogether(a, b, c);
    VerdictIsExact(RepeatedIndependentPerformance, [a, b, c], None);
    NamedEvidenceSuffices(RepeatedIndependentPerformance, [a, b, c], None);
  }
}

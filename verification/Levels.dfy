/** The highest cumulative level a scope's criteria support, and the confidence in it. */
module Levels {
  import opened Base
  import opened Model
  import opened ActiveFacts
  import opened Criteria
  import opened Meaning

  /** Everything one scope's evaluation has established before the downgrade policy looks at it. */
  datatype Assessed = Assessed(
    scale: string, levels: seq<Level>, results: seq<CriterionResult>, facts: seq<Fact>)
  {
    ghost predicate Valid() {
      && WellFormedLevels(levels)
      && KnownLevels()
      && (forall i, j :: 0 <= i < j < |results| ==> results[i].criterion.id != results[j].criterion.id)
    }

    predicate KnownLevels() { forall r :: r in results ==> r.criterion.level in LevelIds(levels) }

    predicate IsDirectRequired(r: CriterionResult, level: Level) {
      r.criterion.requirement == Required && r.criterion.level == level.id
    }

    predicate HasDirectRequired(level: Level) { exists r :: r in results && IsDirectRequired(r, level) }

    function RankOf(r: CriterionResult): int
      requires KnownLevels() && r in results
    {
      LevelById(levels, r.criterion.level).rank
    }

    predicate CumulativelyDemonstrated(rank: int)
      requires KnownLevels()
    {
      forall r :: r in results && r.criterion.requirement == Required && RankOf(r) <= rank ==> r.state == Demonstrated
    }

    predicate IsUnexposed(level: Level) { scale == "technical" && level.key == "unexposed" }

    predicate ExplicitlyUnexposed(level: Level) {
      exists f :: f in facts && f.link.criterion.Some?
        && (exists r :: r in results && IsDirectRequired(r, level) && r.criterion.id == f.link.criterion.value)
        && f.evidence.evidenceType == Assessment && f.link.effect == Supports
        && f.evidence.provenance.captureMethod == "explicit_unexposed_assessment"
    }

    predicate Passes(level: Level)
      requires KnownLevels()
    {
      && HasDirectRequired(level)
      && CumulativelyDemonstrated(level.rank)
      && (IsUnexposed(level) ==> ExplicitlyUnexposed(level))
    }

    function PassedAmong(some: seq<Level>): (passed: seq<Level>)
      requires KnownLevels()
      ensures forall l :: l in passed <==> l in some && Passes(l)
    {
      if some == [] then []
      else
        PassedAmong(some[..|some| - 1]) + (if Passes(some[|some| - 1]) then [some[|some| - 1]] else [])
    }

    function Passed(): (passed: seq<Level>)
      requires KnownLevels()
    {
      PassedAmong(levels)
    }

    function Candidate(): Option<Level>
      requires KnownLevels()
    {
      if Passed() == [] then None else Some(Passed()[|Passed()| - 1])
    }

    method CandidateLevel() returns (candidate: Option<Level>, passed: seq<Level>)
      requires KnownLevels()
      ensures candidate == Candidate() && passed == Passed()
    {
      passed := [];
      for i := 0 to |levels|
        invariant passed == PassedAmong(levels[..i])
      {
        assert levels[..i + 1][..i] == levels[..i];
        var level := levels[i];
        if !HasDirectRequired(level) || !CumulativelyDemonstrated(level.rank) {
          continue;
        }
        if IsUnexposed(level) && !ExplicitlyUnexposed(level) {
          continue;
        }
        passed := passed + [level];
      }
      assert levels[..|levels|] == levels;
      candidate := if passed == [] then None else Some(passed[|passed| - 1]);
    }
  }

  // ---- What passing means -----------------------------------------------------------------------

  ghost predicate RequiredAt(a: Assessed, l: Level, r: CriterionResult) {
    r in a.results && r.criterion.requirement == Required && r.criterion.level == l.id
  }

  /** The result's criterion belongs to a level of rank at most `rank`. */
  ghost predicate RankedBy(a: Assessed, r: CriterionResult, rank: int) {
    exists m :: m in a.levels && m.id == r.criterion.level && m.rank <= rank
  }

  ghost predicate SaysUnexposed(f: Fact) {
    && f.link.effect == Supports && f.evidence.evidenceType == EvidenceType.Assessment
    && f.evidence.provenance.captureMethod == "explicit_unexposed_assessment"
  }

  /**
   The level has a required criterion, all required criteria up to its rank are demonstrated, and the unexposed level of
   the technical scale is assessed explicitly.
   */
  ghost predicate Earned(a: Assessed, l: Level) {
    && (exists r :: RequiredAt(a, l, r))
    && (forall r :: r in a.results && r.criterion.requirement == Required && RankedBy(a, r, l.rank) ==>
         r.state == Demonstrated)
    && (a.scale == "technical" && l.key == "unexposed" ==>
         exists f, r ::
           f in a.facts && SaysUnexposed(f) && RequiredAt(a, l, r) && f.link.criterion == Some(r.criterion.id))
  }

  lemma {:induction false} RankIs(a: Assessed, r: CriterionResult, rank: int)
    requires a.Valid() && r in a.results
    ensures a.RankOf(r) <= rank <==> RankedBy(a, r, rank)
  {
    if RankedBy(a, r, rank) {
      var m :| m in a.levels && m.id == r.criterion.level && m.rank <= rank;
      LevelByIdUnique(a.levels, m);
    }
  }

  lemma {:induction false} PassingIsEarned(a: Assessed, l: Level)
    requires a.Valid()
    ensures a.Passes(l) <==> Earned(a, l)
  {
    forall r | r in a.results ensures a.RankOf(r) <= l.rank <==> RankedBy(a, r, l.rank) { RankIs(a, r, l.rank); }
    ExplicitMeans(a, l);
    forall r ensures r in a.results && a.IsDirectRequired(r, l) <==> RequiredAt(a, l, r) {}
  }

  lemma {:induction false} ExplicitMeans(a: Assessed, l: Level)
    ensures a.ExplicitlyUnexposed(l) <==> exists f, r ::
      f in a.facts && SaysUnexposed(f) && RequiredAt(a, l, r) && f.link.criterion == Some(r.criterion.id)
  {
    if a.ExplicitlyUnexposed(l) {
      var f :| f in a.facts && f.link.criterion.Some?
        && (exists r :: r in a.results && a.IsDirectRequired(r, l) && r.criterion.id == f.link.criterion.value)
        && SaysUnexposed(f);
      var r :| r in a.results && a.IsDirectRequired(r, l) && r.criterion.id == f.link.criterion.value;
      assert RequiredAt(a, l, r);
    }
    if f, r :| f in a.facts && SaysUnexposed(f) && RequiredAt(a, l, r) && f.link.criterion == Some(r.criterion.id) {
      assert a.IsDirectRequired(r, l);
    }
  }

  ghost predicate RanksIncrease(levels: seq<Level>) {
    forall i, j :: 0 <= i < j < |levels| ==> levels[i].rank < levels[j].rank
  }

  lemma {:induction false} PassedRanksIncrease(a: Assessed, some: seq<Level>)
    requires a.KnownLevels() && RanksIncrease(some)
    ensures RanksIncrease(a.PassedAmong(some))
  {
    if some != [] {
      var init, last := some[..|some| - 1], some[|some| - 1];
      PassedRanksIncrease(a, init);
      forall l | l in a.PassedAmong(init) ensures l.rank < last.rank {
        var i :| 0 <= i < |init| && init[i] == l;
        assert some[i] == l;
      }
    }
  }

  lemma {:induction false} LastIsHighest(passed: seq<Level>, l: Level)
    requires RanksIncrease(passed) && l in passed
    ensures l.rank <= passed[|passed| - 1].rank
  {
    var i :| 0 <= i < |passed| && passed[i] == l;
  }

  lemma {:induction false} PassedIsBelowCandidate(a: Assessed, l: Level)
    requires a.Valid() && l in a.Passed()
    ensures a.Candidate().Some? && l.rank <= a.Candidate().value.rank
  {
    PassedRanksIncrease(a, a.levels);
    LastIsHighest(a.Passed(), l);
  }

  /** The candidate is the highest level that is earned; there is none exactly when no level is. */
  lemma {:induction false} CandidateIsHighestPassed(a: Assessed)
    requires a.Valid()
    ensures a.Candidate().Some? ==> a.Candidate().value in a.levels && Earned(a, a.Candidate().value)
    ensures forall l :: l in a.levels && Earned(a, l) ==> a.Candidate().Some? && l.rank <= a.Candidate().value.rank
    ensures forall l :: l in a.Passed() <==> l in a.levels && Earned(a, l)
    ensures RanksIncrease(a.Passed())
  {
    var p := a.Passed();
    if p != [] { assert p[|p| - 1] in p; }
    forall l ensures l in p <==> l in a.levels && Earned(a, l) { PassingIsEarned(a, l); }
    forall l | l in p ensures a.Candidate().Some? && l.rank <= a.Candidate().value.rank {
      PassedIsBelowCandidate(a, l);
    }
    PassedRanksIncrease(a, a.levels);
  }

  /** Passing is cumulative: below an earned level, every level with its own required criterion is earned. */
  lemma {:induction false} PassedIsDownwardClosed(a: Assessed, low: Level, high: Level)
    requires a.Valid() && low in a.levels && low.rank <= high.rank && Earned(a, high)
    requires exists r :: RequiredAt(a, low, r)
    ensures Earned(a, low) <==> (a.scale == "technical" && low.key == "unexposed" ==>
      exists f, r ::
        f in a.facts && SaysUnexposed(f) && RequiredAt(a, low, r) && f.link.criterion == Some(r.criterion.id))
  {
    forall r | r in a.results && RankedBy(a, r, low.rank) ensures RankedBy(a, r, high.rank) {
      var m :| m in a.levels && m.id == r.criterion.level && m.rank <= low.rank;
      assert m.rank <= high.rank;
    }
  }

  /** Same criteria over the same facts, some of them newly demonstrated. */
  ghost predicate Improves(a: Assessed, b: Assessed) {
    && a.scale == b.scale && a.levels == b.levels && a.facts == b.facts && |a.results| == |b.results|
    && forall i :: 0 <= i < |a.results| ==>
        && a.results[i].criterion == b.results[i].criterion
        && (b.results[i].state == a.results[i].state || b.results[i].state == Demonstrated)
  }

  /** The result of a criterion in an improved assessment. */
  lemma {:induction false} ImprovedResult(a: Assessed, b: Assessed, r: CriterionResult) returns (s: CriterionResult)
    requires Improves(a, b) && r in a.results
    ensures s in b.results && s.criterion == r.criterion && (s.state == r.state || s.state == Demonstrated)
  {
    var i :| 0 <= i < |a.results| && a.results[i] == r;
    s := b.results[i];
  }

  lemma {:induction false} ImprovementKeepsDemonstrated(a: Assessed, b: Assessed, rank: int)
    requires a.Valid() && b.Valid() && Improves(a, b) && a.CumulativelyDemonstrated(rank)
    ensures b.CumulativelyDemonstrated(rank)
  {
    forall s | s in b.results && s.criterion.requirement == Required && b.RankOf(s) <= rank
      ensures s.state == Demonstrated {
      var i :| 0 <= i < |b.results| && b.results[i] == s;
      assert a.results[i] in a.results && a.results[i].criterion == s.criterion;
    }
  }

  lemma {:induction false} ImprovementKeepsUnexposed(a: Assessed, b: Assessed, level: Level)
    requires Improves(a, b) && a.ExplicitlyUnexposed(level)
    ensures b.ExplicitlyUnexposed(level)
  {
    var f :| f in a.facts && f.link.criterion.Some?
      && (exists r :: r in a.results && a.IsDirectRequired(r, level) && r.criterion.id == f.link.criterion.value)
      && f.evidence.evidenceType == Assessment && f.link.effect == Supports
      && f.evidence.provenance.captureMethod == "explicit_unexposed_assessment";
    var r :| r in a.results && a.IsDirectRequired(r, level) && r.criterion.id == f.link.criterion.value;
    var s := ImprovedResult(a, b, r);
    assert b.IsDirectRequired(s, level);
  }

  lemma {:induction false} ImprovementKeepsPassing(a: Assessed, b: Assessed, level: Level)
    requires a.Valid() && b.Valid() && Improves(a, b) && a.Passes(level)
    ensures b.Passes(level)
  {
    var r :| r in a.results && a.IsDirectRequired(r, level);
    var s := ImprovedResult(a, b, r);
    assert b.IsDirectRequired(s, level);
    ImprovementKeepsDemonstrated(a, b, level.rank);
    if a.IsUnexposed(level) { ImprovementKeepsUnexposed(a, b, level); }
  }

  /** Demonstrating more criteria never lowers the candidate. */
  lemma {:induction false} ImprovementNeverLowers(a: Assessed, b: Assessed)
    requires a.Valid() && b.Valid() && Improves(a, b) && a.Candidate().Some?
    ensures b.Candidate().Some? && a.Candidate().value.rank <= b.Candidate().value.rank
  {
    CandidateIsHighestPassed(a);
    PassingIsEarned(a, a.Candidate().value);
    ImprovementKeepsPassing(a, b, a.Candidate().value);
    PassingIsEarned(b, a.Candidate().value);
    CandidateIsHighestPassed(b);
  }

  // ---- Confidence ------------------------------------------------------------------------------

  datatype Unmet = UnmetImportant(criterion: Id) | UnmetRobustSupport(criterion: Id) | UnresolvedContradiction

  predicate IsConfidentSupport(f: Fact) {
    IsSupport(f) && f.evidence.independence == Independent && f.evidence.sourceConfidence.Rank() >= 2
  }

  predicate InContext(f: Fact) { f.evidence.strength.Rank() >= 2 && ContextOf(f.evidence) != LEGACY_CONTEXT }

  function ContextsOf(supports: seq<Fact>): set<string> {
    set f | f in supports && InContext(f) :: ContextOf(f.evidence)
  }

  /** A strong independent support, or moderate ones from two known contexts. */
  predicate RobustlySupported(c: Criterion, facts: seq<Fact>) {
    var supports := Filter(CriterionFactsOf(c, facts), IsConfidentSupport);
    || (exists f :: f in supports && f.evidence.strength == Strong)
    || |ContextsOf(supports)| >= 2
  }

  predicate LacksImportant(r: CriterionResult) {
    r.criterion.requirement == Important && r.state != Demonstrated
  }

  predicate LacksRobustSupport(r: CriterionResult, facts: seq<Fact>, current: Id) {
    r.criterion.requirement == Required && r.criterion.level == current && !RobustlySupported(r.criterion, facts)
  }

  predicate BlocksConfidence(r: CriterionResult) {
    r.state == Contradicted && r.criterion.requirement in {Required, Important}
  }

  function UnmetConditions(cumulative: seq<CriterionResult>, facts: seq<Fact>, current: Id): set<Unmet> {
    (set r | r in cumulative && LacksImportant(r) :: UnmetImportant(r.criterion.id))
    + (set r | r in cumulative && LacksRobustSupport(r, facts, current) :: UnmetRobustSupport(r.criterion.id))
    + (if exists r :: r in cumulative && BlocksConfidence(r) then {UnresolvedContradiction} else {})
  }

  method HighConfidence(cumulative: seq<CriterionResult>, facts: seq<Fact>, current: Id)
    returns (high: bool, unmet: set<Unmet>)
    ensures unmet == UnmetConditions(cumulative, facts, current) && (high <==> unmet == {})
  {
    unmet := {};
    for i := 0 to |cumulative|
      invariant unmet
        == (set r | r in cumulative[..i] && LacksImportant(r) :: UnmetImportant(r.criterion.id))
         + (set r | r in cumulative[..i] && LacksRobustSupport(r, facts, current) :: UnmetRobustSupport(r.criterion.id))
    {
      assert cumulative[..i + 1] == cumulative[..i] + [cumulative[i]];
      var r := cumulative[i];
      if LacksImportant(r) {
        unmet := unmet + {UnmetImportant(r.criterion.id)};
      }
      if LacksRobustSupport(r, facts, current) {
        unmet := unmet + {UnmetRobustSupport(r.criterion.id)};
      }
    }
    assert cumulative[..|cumulative|] == cumulative;
    if exists r :: r in cumulative && BlocksConfidence(r) {
      unmet := unmet + {UnresolvedContradiction};
    }
    high := unmet == {};
  }

  // ---- When the level was last supported ---------------------------------------------------------

  predicate LevelDemandsIndependence(criteria: seq<Criterion>, level: Option<Level>) {
    level.Some? && exists c ::
      c in criteria && c.level == level.value.id && c.requirement == Required && DemandsIndependence(c.rule)
  }

  predicate RefreshesLevel(f: Fact, criteria: seq<Criterion>, level: Option<Level>) {
    && IsSupport(f) && f.evidence.occurredAt.Some? && Meaningful(f.evidence)
    && (forall c :: c in criteria && f.link.criterion == Some(c.id) ==> c.requirement in {Required, Important})
    && (if LevelDemandsIndependence(criteria, level) then f.evidence.independence in {Independent, NotApplicable}
        else f.evidence.independence != UnknownIndependence)
  }

  function MeaningfulEvidenceAt(facts: seq<Fact>, criteria: seq<Criterion>, level: Option<Level>): Option<int> {
    if facts == [] then None
    else
      var f := facts[|facts| - 1];
      var rest := MeaningfulEvidenceAt(facts[..|facts| - 1], criteria, level);
      if RefreshesLevel(f, criteria, level) then Later(rest, f.evidence.occurredAt) else rest
  }

  /** The rule of some required criterion of the level asks for independent work. */
  ghost predicate LevelAsksAlone(criteria: seq<Criterion>, level: Option<Level>) {
    exists c :: c in criteria && c.requirement == Required && level.Some? && c.level == level.value.id
      && c.rule != Exposure && c.rule != GuidedPerformance
  }

  /** A solid dated support, not of a supporting criterion, and independent where the level asks for it. */
  ghost predicate Refreshes(f: Fact, criteria: seq<Criterion>, level: Option<Level>) {
    && f.link.effect == Supports && Solid(f.evidence) && f.evidence.occurredAt.Some?
    && (forall c :: c in criteria && f.link.criterion == Some(c.id) ==> c.requirement != Supporting)
    && f.evidence.independence != UnknownIndependence
    && (LevelAsksAlone(criteria, level) ==> f.evidence.independence != Guided && f.evidence.independence != Assisted)
  }

  lemma {:induction false} RefreshingMeans(f: Fact, criteria: seq<Criterion>, level: Option<Level>)
    ensures RefreshesLevel(f, criteria, level) <==> Refreshes(f, criteria, level)
  {
    assert LevelDemandsIndependence(criteria, level) <==> LevelAsksAlone(criteria, level);
  }

  /** The latest occurrence time of a fact that refreshes the level, if there is one. */
  ghost predicate IsRefreshed(facts: seq<Fact>, criteria: seq<Criterion>, level: Option<Level>, latest: Option<int>) {
    && (forall f :: f in facts && Refreshes(f, criteria, level) ==>
         latest.Some? && f.evidence.occurredAt.value <= latest.value)
    && (latest.Some? ==> exists f :: f in facts && Refreshes(f, criteria, level) && f.evidence.occurredAt == latest)
  }

  lemma {:induction false} MeaningfulIsLatest(facts: seq<Fact>, criteria: seq<Criterion>, level: Option<Level>)
    ensures IsRefreshed(facts, criteria, level, MeaningfulEvidenceAt(facts, criteria, level))
  {
    if facts != [] {
      var init, last := facts[..|facts| - 1], facts[|facts| - 1];
      MeaningfulIsLatest(init, criteria, level);
      RefreshingMeans(last, criteria, level);
      assert forall f :: f in facts <==> f in init || f == last;
    }
  }

  method LatestMeaningfulEvidence(facts: seq<Fact>, criteria: seq<Criterion>, level: Option<Level>)
    returns (latest: Option<int>)
    ensures latest == MeaningfulEvidenceAt(facts, criteria, level)
    ensures IsRefreshed(facts, criteria, level, latest)
  {
    latest := None;
    for i := 0 to |facts|
      invariant latest == MeaningfulEvidenceAt(facts[..i], criteria, level)
    {
      assert facts[..i + 1][..i] == facts[..i];
      if RefreshesLevel(facts[i], criteria, level) {
        latest := Later(latest, facts[i].evidence.occurredAt);
      }
    }
    assert facts[..|facts|] == facts;
    MeaningfulIsLatest(facts, criteria, level);
  }
}

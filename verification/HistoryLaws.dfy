/**
 What the history invariant means for whole histories: falls have causes, sustained downgrades never
 reuse evidence, and a lowered level waits for later support.
 */
module HistoryLaws {
  import opened Base
  import opened Model
  import opened ActiveFacts
  import opened Criteria
  import opened Downgrade
  import opened Evaluation
  import opened DecisionLaws
  import opened History

  /** The dated decisive evidence of `e` occurred by `t`. */
  ghost predicate DecidedBy(log: Log, e: Event, t: int) {
    forall v :: v in log.evidence && v.id in e.decisive && v.occurredAt.Some? ==> v.occurredAt.value <= t
  }

  // ---- What the invariant says of a scope's own log, one concern at a time ------------------------------------

  /** When the evidence of the last sustained downgrade before position `n` occurred. */
  function UsedBefore(log: Log, es: seq<Event>, n: nat): Option<int>
    requires n <= |es|
  {
    if n == 0 then None
    else if Sustained(es[n - 1]) then LatestOccurrence(log.evidence, es[n - 1].decisive)
    else UsedBefore(log, es, n - 1)
  }

  lemma {:induction false} UsedBeforeIsUsedBy(log: Log, es: seq<Event>, n: nat)
    requires n <= |es|
    ensures UsedBefore(log, es, n) == UsedBy(log, es[..n])
    ensures LastSustainedOf(es[..n]).None? ==> forall i :: 0 <= i < n ==> !Sustained(es[i])
  {
    if n > 0 {
      UsedBeforeIsUsedBy(log, es, n - 1);
      assert es[..n][..n - 1] == es[..n - 1];
    }
  }

  /** What the sustained downgrade at position `i` uses that no earlier one could have. */
  ghost function UsedAt(log: Log, es: seq<Event>, i: nat): set<Id>
    requires i < |es|
  {
    NewlyUsed(log, UsedBefore(log, es, i), es[i])
  }

  ghost predicate UsesNewEvidence(log: Log, es: seq<Event>) {
    forall i :: 0 <= i < |es| && Sustained(es[i]) ==> UsesAnew(log, UsedBefore(log, es, i), es[i])
  }

  predicate Rises(catalog: map<Id, Definition>, es: seq<Event>, i: nat)
    requires 0 < i < |es|
  {
    && es[i - 1].definition == es[i].definition && es[i - 1].newLevel.Some?
    && RankIn(catalog, es[i].definition, es[i].newLevel) > RankIn(catalog, es[i].definition, es[i - 1].newLevel)
  }

  /** After a sustained downgrade, event `i` rises only on support its run saw, later than the evidence used so far. */
  ghost predicate RiseIsSupported(catalog: map<Id, Definition>, log: Log, runs: seq<Run>, es: seq<Event>, i: nat)
    requires i < |es|
  {
    0 < i && Rises(catalog, es, i) && (exists j :: 0 <= j < i && Sustained(es[j])) ==>
      SupportedInLog(log, es[i].key, UsedBefore(log, es, i), es[i].createdAt, SeenBy(runs, es[i]))
  }

  ghost predicate RisesAreSupported(catalog: map<Id, Definition>, log: Log, runs: seq<Run>, es: seq<Event>) {
    forall i: nat :: i < |es| ==> RiseIsSupported(catalog, log, runs, es, i)
  }

  lemma {:induction false} EventGives(s: Store, es: seq<Event>, i: nat)
    requires i < |es| && EventOk(s, es[..i], es[i])
    ensures Sustained(es[i]) ==> UsesAnew(s.log, UsedBefore(s.log, es, i), es[i])
    ensures RiseIsSupported(s.catalog, s.log, s.runs, es, i)
  {
    UsedBeforeIsUsedBy(s.log, es, i);
    if 0 < i { assert es[..i][|es[..i]| - 1] == es[i - 1]; }
  }

  lemma {:induction false} HistoryGives(s: Store, key: Key)
    requires HistoryOk(s)
    ensures UsesNewEvidence(s.log, EventsOf(s.events, key))
    ensures RisesAreSupported(s.catalog, s.log, s.runs, EventsOf(s.events, key))
  {
    var es := EventsOf(s.events, key);
    assert ScopeHistory(s, es) by { assert ScopeOk(s, key); }
    forall i: nat | i < |es|
      ensures Sustained(es[i]) ==> UsesAnew(s.log, UsedBefore(s.log, es, i), es[i])
      ensures RiseIsSupported(s.catalog, s.log, s.runs, es, i)
    {
      EventGives(s, es, i);
    }
  }

  // ---- Sustained downgrades use new evidence ------------------------------------------------------------------

  /** Newly used evidence is decisive and dated after the bound, so it moves the bound. */
  lemma {:induction false} NewlyUsedIsLater(log: Log, bound: Option<int>, e: Event, id: Id)
    requires id in NewlyUsed(log, bound, e)
    ensures exists v :: v in log.evidence && v.id == id && OccursAfter(v, bound)
    ensures LatestOccurrence(log.evidence, e.decisive).Some?
    ensures After(LatestOccurrence(log.evidence, e.decisive).value, bound)
  {
    var f: Fact :| InLog(log, f, e.key, e.createdAt) && f.evidence.id == id && OccursAfter(f.evidence, bound);
    assert f.evidence in log.evidence;
  }

  lemma {:induction false} UseMovesTheBound(log: Log, es: seq<Event>, i: nat)
    requires UsesNewEvidence(log, es) && i < |es| && Sustained(es[i])
    ensures UsedBefore(log, es, i + 1).Some? && After(UsedBefore(log, es, i + 1).value, UsedBefore(log, es, i))
    ensures DecidedBy(log, es[i], UsedBefore(log, es, i + 1).value)
  {
    var used := NewlyUsed(log, UsedBefore(log, es, i), es[i]);
    var v :| v in log.evidence && v.id in used && v.independence == Independent;
    NewlyUsedIsLater(log, UsedBefore(log, es, i), es[i], v.id);
  }

  /** The bound for new contradictions covers every earlier sustained downgrade, not only the last. */
  lemma {:induction false} UsedCoversAll(log: Log, es: seq<Event>, i: nat, j: nat)
    requires UsesNewEvidence(log, es) && i < j <= |es| && Sustained(es[i])
    ensures UsedBefore(log, es, j).Some? && DecidedBy(log, es[i], UsedBefore(log, es, j).value)
  {
    if i == j - 1 {
      UseMovesTheBound(log, es, i);
    } else {
      UsedCoversAll(log, es, i, j - 1);
      if Sustained(es[j - 1]) { UseMovesTheBound(log, es, j - 1); }
    }
  }

  ghost predicate UniqueEvidence(log: Log) {
    forall i, j :: 0 <= i < j < |log.evidence| ==> log.evidence[i].id != log.evidence[j].id
  }

  /** `id` names evidence that occurred strictly after all the dated evidence that decided `e`. */
  ghost predicate OccursAfterDeciding(log: Log, id: Id, e: Event) {
    exists v :: v in log.evidence && v.id == id && v.occurredAt.Some? && DecidedBy(log, e, v.occurredAt.value - 1)
  }

  lemma {:induction false} UseIsNew(log: Log, es: seq<Event>, i: nat, j: nat)
    requires UsesNewEvidence(log, es) && i < j < |es| && Sustained(es[i]) && Sustained(es[j])
    ensures forall id :: id in UsedAt(log, es, j) ==> OccursAfterDeciding(log, id, es[i])
    ensures UsedAt(log, es, i) !! UsedAt(log, es, j) || !UniqueEvidence(log)
  {
    UsedCoversAll(log, es, i, j);
    forall id | id in UsedAt(log, es, j)
      ensures OccursAfterDeciding(log, id, es[i])
      ensures id !in es[i].decisive || !UniqueEvidence(log)
    {
      NewlyUsedIsLater(log, UsedBefore(log, es, j), es[j], id);
    }
  }

  /** Evidence from two occurrences is two pieces of evidence. */
  lemma {:induction false} TwoOccurrencesTwoIds(log: Log, ids: set<Id>)
    requires UniqueEvidence(log) && |OccurrencesNamed(log, ids)| >= 2
    ensures |ids| >= 2
  {
    var o :| o in OccurrencesNamed(log, ids);
    var p :| p in OccurrencesNamed(log, ids) - {o} by { assert |OccurrencesNamed(log, ids) - {o}| > 0; }
    var v :| v in log.evidence && v.id in ids && OccurrenceOf(v) == o;
    var w :| w in log.evidence && w.id in ids && OccurrenceOf(w) == p;
    var i :| 0 <= i < |log.evidence| && log.evidence[i] == v;
    var j :| 0 <= j < |log.evidence| && log.evidence[j] == w;
    assert v.id != w.id;
    SubsetSize({v.id, w.id}, ids);
  }

  /** New contradictions of two occurrences, one of them independent. */
  ghost predicate UsesTwoOccurrences(log: Log, es: seq<Event>, i: nat)
    requires i < |es|
  {
    && |OccurrencesNamed(log, UsedAt(log, es, i))| >= 2
    && exists v :: v in log.evidence && v.id in UsedAt(log, es, i) && v.independence == Independent
  }

  /**
   Two sustained downgrades of one scope each use contradicting evidence of at least two distinct occurrences, one of
   them independent, and never the same: everything the later one newly uses occurred after everything that decided
   the earlier one.
   */
  lemma {:induction false} DowngradesUseDisjointEvidence(s: Store, key: Key, i: nat, j: nat)
    requires HistoryOk(s)
    requires var es := EventsOf(s.events, key); i < j < |es| && Sustained(es[i]) && Sustained(es[j])
    ensures var es := EventsOf(s.events, key);
      && UsesTwoOccurrences(s.log, es, i) && UsesTwoOccurrences(s.log, es, j)
      && UsedAt(s.log, es, i) !! UsedAt(s.log, es, j)
      && forall id :: id in UsedAt(s.log, es, j) ==> OccursAfterDeciding(s.log, id, es[i])
  {
    HistoryGives(s, key);
    UseIsNew(s.log, EventsOf(s.events, key), i, j);
  }

  // ---- Counting ----------------------------------------------------------------------------------------------

  /** Evidence the log links to the scope as contradicting. */
  ghost function ContradictingIds(log: Log, key: Key): set<Id> {
    set l |
      && l in log.links && l.competency == key.competency && l.dimension == key.dimension
      && l.effect == Contradicts
      :: l.evidenceId
  }

  function SustainedCount(es: seq<Event>, n: nat): nat
    requires n <= |es|
  {
    if n == 0 then 0
    else if Sustained(es[n - 1]) then SustainedCount(es, n - 1) + 1
    else SustainedCount(es, n - 1)
  }

  ghost function UsedThrough(log: Log, es: seq<Event>, n: nat): set<Id>
    requires n <= |es|
  {
    if n == 0 then {}
    else if Sustained(es[n - 1]) then UsedThrough(log, es, n - 1) + UsedAt(log, es, n - 1)
    else UsedThrough(log, es, n - 1)
  }

  lemma {:induction false} NewlyUsedContradicts(log: Log, bound: Option<int>, e: Event)
    ensures NewlyUsed(log, bound, e) <= ContradictingIds(log, e.key)
  {
    forall id | id in NewlyUsed(log, bound, e) ensures id in ContradictingIds(log, e.key) {
      var f: Fact :| InLog(log, f, e.key, e.createdAt) && f.evidence.id == id && IsContradiction(f);
      assert f.link in log.links;
    }
  }

  lemma {:induction false} EarlierUseIsDisjoint(log: Log, es: seq<Event>, i: nat, n: nat)
    requires UsesNewEvidence(log, es) && i <= n < |es| && Sustained(es[n]) && UniqueEvidence(log)
    ensures UsedThrough(log, es, i) !! UsedAt(log, es, n)
  {
    if i > 0 {
      EarlierUseIsDisjoint(log, es, i - 1, n);
      if Sustained(es[i - 1]) { UseIsNew(log, es, i - 1, n); }
    }
  }

  lemma {:induction false} DisjointSizes<T>(a: set<T>, b: set<T>)
    requires a !! b
    ensures |a + b| == |a| + |b|
  {}

  lemma {:induction false} UsedThroughCounts(log: Log, es: seq<Event>, n: nat)
    requires UsesNewEvidence(log, es) && n <= |es| && UniqueEvidence(log)
    ensures 2 * SustainedCount(es, n) <= |UsedThrough(log, es, n)|
  {
    if n > 0 {
      UsedThroughCounts(log, es, n - 1);
      if Sustained(es[n - 1]) {
        EarlierUseIsDisjoint(log, es, n - 1, n - 1);
        TwoOccurrencesTwoIds(log, UsedAt(log, es, n - 1));
        DisjointSizes(UsedThrough(log, es, n - 1), UsedAt(log, es, n - 1));
      }
    }
  }

  lemma {:induction false} UsedThroughContradicts(log: Log, es: seq<Event>, key: Key, n: nat)
    requires n <= |es| && forall e :: e in es ==> e.key == key
    ensures UsedThrough(log, es, n) <= ContradictingIds(log, key)
  {
    if n > 0 {
      UsedThroughContradicts(log, es, key, n - 1);
      assert es[n - 1] in es;
      NewlyUsedContradicts(log, UsedBefore(log, es, n - 1), es[n - 1]);
    }
  }

  /** A scope suffers at most half as many sustained downgrades as it has contradicting evidence. */
  lemma {:induction false} DowngradesAreBounded(s: Store, key: Key)
    requires HistoryOk(s)
    ensures var es := EventsOf(s.events, key); 2 * SustainedCount(es, |es|) <= |ContradictingIds(s.log, key)|
  {
    var es := EventsOf(s.events, key);
    HistoryGives(s, key);
    UsedThroughCounts(s.log, es, |es|);
    UsedThroughContradicts(s.log, es, key, |es|);
    SubsetSize(UsedThrough(s.log, es, |es|), ContradictingIds(s.log, key));
  }

  // ---- Rises and falls -----------------------------------------------------------------------------------------

  /**
   Supporting evidence of the scope, recorded by `upTo` and active when seen, that occurred after all that decided `e`.
   */
  ghost predicate SupportedSince(log: Log, key: Key, e: Event, upTo: int, seen: seq<Payload>) {
    exists f: Fact :: InLog(log, f, key, upTo) && IsSupport(f) && PayloadOf(f) in seen && f.evidence.occurredAt.Some?
      && DecidedBy(log, e, f.evidence.occurredAt.value - 1)
  }

  /** From event `i` on, the definition stays and every level passed through is known. */
  ghost predicate SteadyFrom(es: seq<Event>, i: nat, j: nat)
    requires i <= j < |es|
  {
    && (forall k :: i <= k <= j ==> es[k].definition == es[i].definition)
    && (forall k :: i <= k < j ==> es[k].newLevel.Some?)
  }

  /** The step that rises is the one that saw the support. */
  lemma {:induction false} RiseSeesSupport(
      catalog: map<Id, Definition>, log: Log, runs: seq<Run>, es: seq<Event>, i: nat, j: nat)
    requires UsesNewEvidence(log, es) && RisesAreSupported(catalog, log, runs, es)
    requires i < j < |es| && Sustained(es[i]) && Rises(catalog, es, j)
    ensures SupportedSince(log, es[j].key, es[i], es[j].createdAt, SeenBy(runs, es[j]))
  {
    var e := es[j];
    UsedCoversAll(log, es, i, j);
    assert RiseIsSupported(catalog, log, runs, es, j);
    var f: Fact :| InLog(log, f, e.key, e.createdAt) && IsSupport(f) && OccursAfter(f.evidence, UsedBefore(log, es, j))
      && PayloadOf(f) in SeenBy(runs, e);
    assert DecidedBy(log, es[i], f.evidence.occurredAt.value - 1);
  }

  lemma {:induction false} RiseWaitsForSupport(
      catalog: map<Id, Definition>, log: Log, runs: seq<Run>, es: seq<Event>, key: Key, i: nat, j: nat)
    requires UsesNewEvidence(log, es) && RisesAreSupported(catalog, log, runs, es)
    requires forall e :: e in es ==> e.key == key
    requires i < j < |es| && Sustained(es[i]) && SteadyFrom(es, i, j)
    requires RankIn(catalog, es[j].definition, es[j].newLevel) > RankIn(catalog, es[i].definition, es[i].newLevel)
    ensures exists k :: i < k <= j && SupportedSince(log, key, es[i], es[k].createdAt, SeenBy(runs, es[k]))
  {
    assert es[j] in es;
    if Rises(catalog, es, j) {
      RiseSeesSupport(catalog, log, runs, es, i, j);
    } else {
      RiseWaitsForSupport(catalog, log, runs, es, key, i, j - 1);
      var k :| i < k <= j - 1 && SupportedSince(log, key, es[i], es[k].createdAt, SeenBy(runs, es[k]));
    }
  }

  /**
   After a sustained downgrade, a later event stands above the lowered level only if some event in between
   saw support, active at its cutoff, that occurred after all the evidence that decided the downgrade.
   */
  lemma {:induction false} LoweredLevelWaitsForSupport(s: Store, key: Key, i: nat, j: nat)
    requires HistoryOk(s)
    requires var es := EventsOf(s.events, key);
      && i < j < |es| && Sustained(es[i]) && SteadyFrom(es, i, j)
      && RankIn(s.catalog, es[j].definition, es[j].newLevel) > RankIn(s.catalog, es[i].definition, es[i].newLevel)
    ensures var es := EventsOf(s.events, key);
      exists k :: i < k <= j && SupportedSince(s.log, key, es[i], es[k].createdAt, SeenBy(s.runs, es[k]))
  {
    HistoryGives(s, key);
    RiseWaitsForSupport(s.catalog, s.log, s.runs, EventsOf(s.events, key), key, i, j);
  }

  /** A known level falls under its own definition only in an event that names one of the three causes. */
  lemma {:induction false} FallsNameTheirCause(s: Store, key: Key, i: nat)
    requires HistoryOk(s)
    requires var es := EventsOf(s.events, key);
      && 0 < i < |es| && es[i].definition == es[i - 1].definition && es[i - 1].newLevel.Some?
      && RankIn(s.catalog, es[i].definition, es[i].newLevel) < RankIn(s.catalog, es[i].definition, es[i - 1].newLevel)
    ensures EventsOf(s.events, key)[i].cause.Downgraded?
  {
    var es := EventsOf(s.events, key);
    assert ScopeOk(s, key);
    assert EventOk(s, es[..i], es[i]);
    assert es[..i][|es[..i]| - 1] == es[i - 1];
  }

  /** A lowered event stands at the scale's level of the given rank, and at none when the scale has no such rank. */
  ghost predicate StandsAtRank(levels: seq<Level>, level: Option<Id>, rank: int) {
    && (forall l :: l in levels && l.rank == rank ==> level == Some(l.id))
    && ((forall l :: l in levels ==> l.rank != rank) ==> level == None)
  }

  /**
   A sustained contradiction acts on a known level of the same definition and moves it to the next rank below, to
   nothing when the scale lacks that rank, and not at all from rank 0.
   */
  lemma {:induction false} SustainedLowersOneRank(s: Store, key: Key, i: nat)
    requires HistoryOk(s)
    requires var es := EventsOf(s.events, key); i < |es| && Sustained(es[i]) && es[i].definition in s.catalog
    ensures var es := EventsOf(s.events, key);
      && i > 0 && es[i - 1].definition == es[i].definition && es[i - 1].newLevel.Some?
      && StandsAtRank(s.catalog[es[i].definition].levels, es[i].newLevel,
                      OneBelow(RankIn(s.catalog, es[i].definition, es[i - 1].newLevel)))
  {
    var es := EventsOf(s.events, key);
    assert ScopeOk(s, key);
    assert EventOk(s, es[..i], es[i]);
    assert es[..i] != [] && es[..i][|es[..i]| - 1] == es[i - 1];
    var levels, rank := s.catalog[es[i].definition].levels,
      OneBelow(RankIn(s.catalog, es[i].definition, es[i - 1].newLevel));
    forall l | l in levels && l.rank == rank ensures es[i].newLevel == Some(l.id) { OnlyLevelAtRank(levels, l); }
  }

  lemma {:induction false} OnlyLevelAtRank(levels: seq<Level>, low: Level)
    requires WellFormedLevels(levels) && low in levels
    ensures LevelAtRank(levels, low.rank) == Some(low)
  {
    var found := LevelAtRank(levels, low.rank);
    var a :| 0 <= a < |levels| && levels[a] == low;
    var b :| 0 <= b < |levels| && levels[b] == found.value;
    assert a == b;
  }

  // ---- Confidence -----------------------------------------------------------------------------------------------

  /** The confidence given to the level follows from the run's own results and evidence. */
  ghost predicate Grades(levels: seq<Level>, r: Run, level: Option<Id>, confidence: Confidence) {
    var doubt := r.decision.confidenceFacts.retained || HasContradiction(r.results);
    && (confidence == Confidence.Unknown <==> level.None?)
    && (confidence == Confidence.Low <==> level.Some? && doubt)
    && (confidence == Confidence.High <==> level.Some? && !doubt && !HasLack(levels, r.results, r.evidence, level))
  }

  /** Every recorded event and the cached row have the confidence their run's results and evidence give the level. */
  lemma {:induction false} RecordedConfidenceIsExplained(s: Store, key: Key)
    requires HistoryOk(s)
    ensures forall e :: e in EventsOf(s.events, key) ==>
      && e.run < |s.runs| && e.definition in s.catalog && s.runs[e.run].key == key
      && Grades(s.catalog[e.definition].levels, s.runs[e.run], e.newLevel, e.newConfidence)
    ensures key in s.states ==>
      var p := s.states[key];
      && p.run < |s.runs| && p.definition in s.catalog && s.runs[p.run].key == key
      && Grades(s.catalog[p.definition].levels, s.runs[p.run], p.level, p.confidence)
  {
    var es := EventsOf(s.events, key);
    assert ScopeOk(s, key);
    forall e | e in es
      ensures e.run < |s.runs| && e.definition in s.catalog && s.runs[e.run].key == key
      ensures Grades(s.catalog[e.definition].levels, s.runs[e.run], e.newLevel, e.newConfidence)
    {
      var i :| 0 <= i < |es| && es[i] == e;
      assert EventOk(s, es[..i], es[i]);
      assert s.runs[e.run] in s.runs;
    }
    if key in s.states { assert s.runs[s.states[key].run] in s.runs; }
  }
}

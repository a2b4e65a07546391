/**
 The invariant of the capability history: every scope's event log is numbered, chained, matched by
 its runs and justified by the evidence, and the cached projection stands at its last event.
 Evaluation and reseeding keep it.
 */
module History {
  import opened Base
  import opened Model
  import opened ActiveFacts
  import opened Criteria
  import opened Downgrade
  import opened Evaluation
  import opened DecisionLaws

  // ---- One scope's events ----------------------------------------------------------------------------

  function EventsOf(events: seq<Event>, key: Key): (r: seq<Event>)
    ensures forall e :: e in r <==> e in events && e.key == key
  {
    if events == [] then []
    else
      var e := events[|events| - 1];
      EventsOf(events[..|events| - 1], key) + (if e.key == key then [e] else [])
  }

  lemma {:induction false} EventsOfAppend(events: seq<Event>, e: Event, key: Key)
    ensures EventsOf(events + [e], key) == EventsOf(events, key) + (if e.key == key then [e] else [])
  {
    assert (events + [e])[..|events|] == events;
  }

  predicate Sustained(e: Event) { e.cause == Downgraded(SustainedContradiction) }

  /** The last sustained-contradiction event of a scope's events. */
  function LastSustainedOf(es: seq<Event>): (r: Option<Event>)
    ensures r.Some? ==> r.value in es && Sustained(r.value)
    ensures r.None? ==> forall e :: e in es ==> !Sustained(e)
  {
    if es == [] then None
    else if Sustained(es[|es| - 1]) then Some(es[|es| - 1])
    else LastSustainedOf(es[..|es| - 1])
  }

  /** When the evidence that decided the last sustained downgrade among `es` occurred. */
  function UsedBy(log: Log, es: seq<Event>): Option<int> {
    var e := LastSustainedOf(es);
    if e.None? then None else LatestOccurrence(log.evidence, e.value.decisive)
  }

  ghost predicate Numbered(es: seq<Event>) { forall i :: 0 <= i < |es| ==> es[i].sequence == i + 1 }

  /** Dropping the last row of the table: what is left of a scope's log is still numbered, below the dropped row. */
  lemma {:induction false} NumberedInit(events: seq<Event>, key: Key)
    requires events != [] && Numbered(EventsOf(events, key))
    ensures var init, e := events[..|events| - 1], events[|events| - 1];
      && Numbered(EventsOf(init, key))
      && EventsOf(events, key) == EventsOf(init, key) + (if e.key == key then [e] else [])
      && (e.key == key ==> forall f :: f in init && f.key == key ==> f.sequence < e.sequence)
  {
    var init, e := events[..|events| - 1], events[|events| - 1];
    var es, before := EventsOf(events, key), EventsOf(init, key);
    assert forall i :: 0 <= i < |before| ==> before[i] == es[i];
    if e.key == key {
      forall f | f in init && f.key == key ensures f.sequence < e.sequence {
        assert f in before;
        var i :| 0 <= i < |before| && before[i] == f;
        assert es[i].sequence == i + 1 && es[|es| - 1].sequence == |es|;
      }
    }
  }

  /** The query by highest sequence finds the last event of the scope's own log. */
  lemma {:induction false} LatestIsLast(events: seq<Event>, key: Key)
    requires Numbered(EventsOf(events, key))
    ensures var es := EventsOf(events, key);
      LatestEvent(events, key) == if es == [] then None else Some(es[|es| - 1])
  {
    if events != [] {
      NumberedInit(events, key);
      LatestIsLast(events[..|events| - 1], key);
    }
  }

  lemma {:induction false} LastSustainedOfAppend(es: seq<Event>, e: Event)
    ensures LastSustainedOf(es + [e]) == if Sustained(e) then Some(e) else LastSustainedOf(es)
  {
    assert (es + [e])[..|es|] == es;
  }

  lemma {:induction false} LastSustainedIsLast(events: seq<Event>, key: Key, cutoff: int)
    requires Numbered(EventsOf(events, key))
    requires forall e :: e in events && e.key == key ==> e.createdAt <= cutoff
    ensures LastSustained(events, key, cutoff) == LastSustainedOf(EventsOf(events, key))
  {
    if events != [] {
      var init, e := events[..|events| - 1], events[|events| - 1];
      NumberedInit(events, key);
      LastSustainedIsLast(init, key, cutoff);
      var rest := LastSustained(init, key, cutoff);
      assert e in events;
      assert IsSustained(e, key, cutoff) <==> e.key == key && Sustained(e);
      assert e.key == key && rest.Some? ==> rest.value.sequence < e.sequence;
      if e.key == key {
        LastSustainedOfAppend(EventsOf(init, key), e);
      } else {
        assert EventsOf(events, key) == EventsOf(init, key);
      }
    }
  }

  // ---- What justifies an event -----------------------------------------------------------------------

  /** A fact of the scope recorded in the log by a given time. */
  ghost predicate InLog(log: Log, f: Fact, key: Key, upTo: int) {
    && f.link in log.links && f.evidence in log.evidence && f.link.evidenceId == f.evidence.id
    && f.link.competency == key.competency && f.link.dimension == key.dimension
    && f.evidence.createdAt <= upTo && f.link.createdAt <= upTo
  }

  predicate OccursAfter(e: Evidence, bound: Option<int>) { e.occurredAt.Some? && After(e.occurredAt.value, bound) }

  ghost predicate ContradictedInLog(log: Log, key: Key, id: Id, bound: Option<int>, upTo: int) {
    exists f: Fact :: InLog(log, f, key, upTo) && f.evidence.id == id && IsContradiction(f) && Meaningful(f.evidence)
      && OccursAfter(f.evidence, bound)
  }

  /** What the run behind an event saw: the payloads of the facts active at its cutoff. */
  function SeenBy(runs: seq<Run>, e: Event): seq<Payload> { if e.run < |runs| then runs[e.run].evidence else [] }

  /** Logged support after `bound` that was active when it was seen. */
  ghost predicate SupportedInLog(log: Log, key: Key, bound: Option<int>, upTo: int, seen: seq<Payload>) {
    exists f: Fact :: InLog(log, f, key, upTo) && IsSupport(f) && OccursAfter(f.evidence, bound) && PayloadOf(f) in seen
  }

  /** Decisive evidence of `e` that contradicts its scope after `bound`. */
  ghost function NewlyUsed(log: Log, bound: Option<int>, e: Event): set<Id> {
    set id | id in e.decisive && ContradictedInLog(log, e.key, id, bound, e.createdAt)
  }

  /** The occurrences of the named evidence. */
  ghost function OccurrencesNamed(log: Log, ids: set<Id>): set<Occurrence> {
    set v | v in log.evidence && v.id in ids :: OccurrenceOf(v)
  }

  /** New contradictions of at least two occurrences, one of them independent. */
  ghost predicate UsesAnew(log: Log, bound: Option<int>, e: Event) {
    && |OccurrencesNamed(log, NewlyUsed(log, bound, e))| >= 2
    && exists v :: v in log.evidence && v.id in NewlyUsed(log, bound, e) && v.independence == Independent
  }

  function RankIn(catalog: map<Id, Definition>, definition: Id, level: Option<Id>): int {
    if level.Some? && level.value in LevelsOf(catalog, definition)
      then LevelById(catalog[definition].levels, level.value).rank
    else -1
  }

  /** `e` follows an event that gave a known level under the same definition. */
  predicate Comparable(before: seq<Event>, e: Event) {
    before != [] && before[|before| - 1].definition == e.definition && before[|before| - 1].newLevel.Some?
  }

  /** Levels fall only for a cause, sustained contradictions one rank at a time, and rise only on later support. */
  ghost predicate Justified(catalog: map<Id, Definition>, log: Log, seen: seq<Payload>, before: seq<Event>, e: Event) {
    && (Sustained(e) ==> Comparable(before, e) && UsesAnew(log, UsedBy(log, before), e))
    && (Comparable(before, e) ==>
         var from := RankIn(catalog, e.definition, before[|before| - 1].newLevel);
         var to := RankIn(catalog, e.definition, e.newLevel);
         && (to < from ==> e.cause.Downgraded?)
         && (Sustained(e) && e.definition in catalog ==>
              e.newLevel == LevelIdOf(LevelAtRank(catalog[e.definition].levels, OneBelow(from))))
         && (to > from && LastSustainedOf(before).Some? ==>
              SupportedInLog(log, e.key, UsedBy(log, before), e.createdAt, seen)))
  }

  // ---- The invariant ---------------------------------------------------------------------------------

  ghost predicate FollowsOn(before: seq<Event>, e: Event) {
    && e.sequence == |before| + 1
    && (if before == [] then
          e.previousLevel.None? && e.previousStatus.None? && e.previousConfidence.None?
        else
          var p := before[|before| - 1];
          e.previousLevel == p.newLevel && e.previousStatus == Some(p.newStatus)
            && e.previousConfidence == Some(p.newConfidence))
  }

  ghost predicate MatchesRun(runs: seq<Run>, e: Event) {
    && e.run < |runs|
    && var r := runs[e.run];
       && r.key == e.key && r.definition == e.definition && r.generatedAt == e.createdAt
       && r.decision.level == e.newLevel && r.decision.status == e.newStatus
       && r.decision.confidence == e.newConfidence && r.decision.decisive == e.decisive
  }

  ghost predicate Grounded(log: Log, ids: set<Id>) {
    forall id :: id in ids ==> exists e :: e in log.evidence && e.id == id
  }

  ghost predicate EventOk(s: Store, before: seq<Event>, e: Event) {
    && FollowsOn(before, e)
    && MatchesRun(s.runs, e)
    && Grounded(s.log, e.decisive)
    && e.key.competency in s.active
    && Justified(s.catalog, s.log, SeenBy(s.runs, e), before, e)
  }

  ghost predicate ScopeHistory(s: Store, es: seq<Event>) {
    forall i :: 0 <= i < |es| ==> EventOk(s, es[..i], es[i])
  }

  /** The cached row repeats its own run. */
  ghost predicate ProjectionMatchesRun(s: Store, key: Key, p: Projection) {
    && p.run < |s.runs|
    && var r := s.runs[p.run];
       && r.key == key && r.definition == p.definition && r.decision.level == p.level && r.decision.status == p.status
       && r.decision.confidence == p.confidence && r.decision.confidenceFacts == p.confidenceFacts
       && r.evidence == p.evidence && r.cutoff == p.lastEvaluated
  }

  /** The cached row stands where the last event left the scope. */
  ghost predicate ProjectionMatchesEvent(s: Store, p: Projection, last: Event, n: nat) {
    && p.version == n && p.definition == last.definition && p.level == last.newLevel
    && p.status == last.newStatus && p.confidence == last.newConfidence
    && last.run < |s.runs| && p.confidenceFacts == s.runs[last.run].decision.confidenceFacts
  }

  ghost predicate InStep(s: Store, key: Key) {
    var es := EventsOf(s.events, key);
    && (key in s.states <==> es != [])
    && (key in s.states ==>
         && ProjectionMatchesRun(s, key, s.states[key])
         && ProjectionMatchesEvent(s, s.states[key], es[|es| - 1], |es|))
  }

  /** A run's decision is explained by its results and evidence, and its decisive evidence is in the log. */
  ghost predicate RunOk(catalog: map<Id, Definition>, log: Log, r: Run) {
    && r.definition in catalog && Explained(catalog[r.definition].levels, r.results, r.evidence, r.decision)
    && (r.decision.confidenceFacts.retained ==> r.decision.level.Some? && r.decision.cause.None?)
    && Grounded(log, r.decision.decisive)
  }

  ghost predicate ScopeOk(s: Store, key: Key) { ScopeHistory(s, EventsOf(s.events, key)) && InStep(s, key) }

  ghost predicate RunsOk(s: Store) { forall r :: r in s.runs ==> RunOk(s.catalog, s.log, r) }

  ghost predicate HistoryOk(s: Store) { Sound(s) && RunsOk(s) && forall key :: ScopeOk(s, key) }

  // ---- The invariant survives a growing log and a growing run table ----------------------------------

  /** `t` extends the log and the runs of `s`; evidence ids stay unique. */
  ghost predicate Grows(s: Store, t: Store) {
    && t.catalog == s.catalog
    && s.active.Keys <= t.active.Keys
    && s.runs <= t.runs
    && s.log.evidence <= t.log.evidence && s.log.links <= t.log.links
    && (forall i, j :: 0 <= i < j < |t.log.evidence| ==> t.log.evidence[i].id != t.log.evidence[j].id)
  }

  lemma {:induction false} LatestOccurrenceGrows(s: Store, t: Store, ids: set<Id>)
    requires Grows(s, t) && Grounded(s.log, ids)
    ensures LatestOccurrence(t.log.evidence, ids) == LatestOccurrence(s.log.evidence, ids)
  {
    var n := |s.log.evidence|;
    var more := t.log.evidence[n..];
    assert t.log.evidence == s.log.evidence + more;
    forall j | 0 <= j < |more| ensures more[j].id !in ids {
      assert more[j] == t.log.evidence[n + j];
      assert forall i :: 0 <= i < n ==>
        s.log.evidence[i] == t.log.evidence[i] && t.log.evidence[i].id != t.log.evidence[n + j].id;
    }
    LatestOccurrenceStable(s.log.evidence, more, ids);
  }

  lemma {:induction false} PrefixMembers<T>(a: seq<T>, b: seq<T>)
    requires a <= b
    ensures forall x :: x in a ==> x in b
  {
    forall x | x in a ensures x in b {
      var i :| 0 <= i < |a| && a[i] == x;
      assert b[i] == x;
    }
  }

  lemma {:induction false} InLogGrows(s: Store, t: Store, f: Fact, key: Key, upTo: int)
    requires Grows(s, t) && InLog(s.log, f, key, upTo)
    ensures InLog(t.log, f, key, upTo)
  {
    PrefixMembers(s.log.evidence, t.log.evidence);
    PrefixMembers(s.log.links, t.log.links);
  }

  lemma {:induction false} NewlyUsedGrows(s: Store, t: Store, bound: Option<int>, e: Event)
    requires Grows(s, t)
    ensures NewlyUsed(s.log, bound, e) <= NewlyUsed(t.log, bound, e)
    ensures UsesAnew(s.log, bound, e) ==> UsesAnew(t.log, bound, e)
  {
    forall id | id in NewlyUsed(s.log, bound, e) ensures id in NewlyUsed(t.log, bound, e) {
      var f: Fact :| InLog(s.log, f, e.key, e.createdAt) && f.evidence.id == id && IsContradiction(f)
        && Meaningful(f.evidence) && OccursAfter(f.evidence, bound);
      InLogGrows(s, t, f, e.key, e.createdAt);
    }
    PrefixMembers(s.log.evidence, t.log.evidence);
    SubsetSize(OccurrencesNamed(s.log, NewlyUsed(s.log, bound, e)),
      OccurrencesNamed(t.log, NewlyUsed(t.log, bound, e)));
  }

  lemma {:induction false} SupportGrows(s: Store, t: Store, e: Event, bound: Option<int>)
    requires Grows(s, t) && e.run < |s.runs|
    ensures SeenBy(t.runs, e) == SeenBy(s.runs, e)
    ensures SupportedInLog(s.log, e.key, bound, e.createdAt, SeenBy(s.runs, e)) ==>
      SupportedInLog(t.log, e.key, bound, e.createdAt, SeenBy(t.runs, e))
  {
    if SupportedInLog(s.log, e.key, bound, e.createdAt, SeenBy(s.runs, e)) {
      var f: Fact :| InLog(s.log, f, e.key, e.createdAt) && IsSupport(f) && OccursAfter(f.evidence, bound)
        && PayloadOf(f) in SeenBy(s.runs, e);
      InLogGrows(s, t, f, e.key, e.createdAt);
    }
  }

  lemma {:induction false} EventOkGrows(s: Store, t: Store, before: seq<Event>, e: Event)
    requires Grows(s, t) && EventOk(s, before, e)
    requires forall p :: p in before ==> Grounded(s.log, p.decisive)
    ensures EventOk(t, before, e)
  {
    if LastSustainedOf(before).Some? {
      LatestOccurrenceGrows(s, t, LastSustainedOf(before).value.decisive);
    }
    NewlyUsedGrows(s, t, UsedBy(s.log, before), e);
    PrefixMembers(s.log.evidence, t.log.evidence);
    SupportGrows(s, t, e, UsedBy(s.log, before));
  }

  lemma {:induction false} ScopeHistoryGrows(s: Store, t: Store, es: seq<Event>)
    requires Grows(s, t) && ScopeHistory(s, es)
    ensures ScopeHistory(t, es)
  {
    forall i | 0 <= i < |es| ensures EventOk(t, es[..i], es[i]) {
      forall p | p in es[..i] ensures Grounded(s.log, p.decisive) {
        var j :| 0 <= j < i && es[j] == p;
        assert EventOk(s, es[..j], es[j]);
      }
      EventOkGrows(s, t, es[..i], es[i]);
    }
  }

  lemma {:induction false} ScopeHistoryExtends(s: Store, es: seq<Event>, e: Event)
    requires ScopeHistory(s, es) && EventOk(s, es, e)
    ensures ScopeHistory(s, es + [e])
  {
    forall i | 0 <= i < |es| + 1 ensures EventOk(s, (es + [e])[..i], (es + [e])[i]) {
      if i < |es| {
        assert (es + [e])[..i] == es[..i];
        assert EventOk(s, es[..i], es[i]);
      } else {
        assert (es + [e])[..i] == es;
      }
    }
  }
}

/**
 The cache and its queue: every competency with an active definition either has, in every scope, the
 evidence set that is active now, or still has capability work outstanding.
 */
module Freshness {
  import opened Base
  import opened Model
  import opened ActiveFacts
  import opened Downgrade
  import opened Evaluation
  import opened History
  import opened HistoryRuns

  // ---- The queue -------------------------------------------------------------------------------------------------

  datatype Kind = CriterionEvaluation | Capability | Review | Analysis

  datatype Subject = OfCompetency(competency: Id) | OfCriterion(criterion: Id)

  datatype ItemStatus = Pending | Running | Completed | PermanentFailure

  datatype Item = Item(kind: Kind, subject: Subject, status: ItemStatus, attempts: nat)

  /** Analysis items belong to another drain. */
  predicate Drainable(i: Item) { i.kind != Analysis }

  function Requested(kind: Kind, subject: Subject): Item { Item(kind, subject, Pending, 0) }

  ghost predicate Outstanding(queue: seq<Item>, competency: Id) {
    exists i :: i in queue && i.kind == Capability && i.subject == OfCompetency(competency) && i.status != Completed
  }

  // ---- Freshness -------------------------------------------------------------------------------------------------

  function Scopes(d: Definition): (r: seq<Option<Id>>)
    ensures |r| == |d.dimensions| + 1 && r[0] == None
    ensures forall i :: 0 <= i < |d.dimensions| ==> r[i + 1] == Some(d.dimensions[i])
  {
    seq(|d.dimensions| + 1, i requires 0 <= i < |d.dimensions| + 1 => if i == 0 then None
      else Some(d.dimensions[i - 1]))
  }

  function ActivePayload(log: Log, key: Key, now: int): seq<Payload> { Payloads(ScopeFacts(log, key, now)) }

  ghost predicate ScopeFresh(s: Store, key: Key, now: int) {
    key in s.states && s.states[key].evidence == ActivePayload(s.log, key, now)
  }

  ghost predicate AllFresh(s: Store, d: Definition, c: Id, now: int) {
    forall dimension :: dimension in Scopes(d) ==> ScopeFresh(s, Key(c, dimension), now)
  }

  ghost predicate Fresh(s: Store, c: Id, now: int) {
    ActiveDefinition(s, c).Some? ==> AllFresh(s, ActiveDefinition(s, c).value, c, now)
  }

  ghost predicate Coherent(s: Store, queue: seq<Item>, now: int) {
    forall c :: c in s.active ==> Outstanding(queue, c) || Fresh(s, c, now)
  }

  /** Nothing in the log is dated or recorded in the future. */
  ghost predicate NoFuture(log: Log, now: int) {
    && (forall e :: e in log.evidence ==> e.createdAt <= now && (e.occurredAt.Some? ==> e.occurredAt.value <= now))
    && (forall l :: l in log.links ==> l.createdAt <= now)
    && (forall r :: r in log.retractions ==> r.createdAt <= now)
    && (forall i :: i in log.invalidations ==> i.createdAt <= now)
    && (forall r :: r in log.linkRetractions ==> r.createdAt <= now)
  }

  // ---- Time passes -----------------------------------------------------------------------------------------------

  lemma {:induction false} TimeKeepsFacts(log: Log, key: Key, now: int, later: int)
    requires NoFuture(log, now) && now <= later
    ensures ScopeFacts(log, key, later) == ScopeFacts(log, key, now)
  {
    RowsAgree(log.evidence, log.evidence, log.links, key.competency, later, now);
    KeepActiveAgrees(log, log, Sorted(Rows(log.evidence, log.links, key.competency, now)), later, now);
  }

  /** The clock alone changes nothing the competency is judged on. */
  ghost predicate SamePayloads(s: Store, c: Id, now: int, later: int) {
    ActiveDefinition(s, c).Some? ==> forall dimension :: dimension in Scopes(ActiveDefinition(s, c).value) ==>
      ActivePayload(s.log, Key(c, dimension), later) == ActivePayload(s.log, Key(c, dimension), now)
  }

  /** What passing from one instant to another needs: no idle competency gains or loses facts by it. */
  ghost predicate TickClear(s: Store, queue: seq<Item>, now: int, later: int) {
    forall c :: c in s.active && !Outstanding(queue, c) ==> SamePayloads(s, c, now, later)
  }

  lemma {:induction false} FreshLaterIff(s: Store, c: Id, now: int, later: int)
    requires Fresh(s, c, now)
    ensures Fresh(s, c, later) <==> SamePayloads(s, c, now, later)
  {
    if ActiveDefinition(s, c).Some? {
      forall dimension | dimension in Scopes(ActiveDefinition(s, c).value)
        ensures ScopeFresh(s, Key(c, dimension), later) <==>
          ActivePayload(s.log, Key(c, dimension), later) == ActivePayload(s.log, Key(c, dimension), now)
      {
        assert ScopeFresh(s, Key(c, dimension), now);
      }
    }
  }

  /** The clock keeps the cache coherent exactly when it changes no idle competency. */
  lemma {:induction false} TimeKeepsCoherenceIff(s: Store, queue: seq<Item>, now: int, later: int)
    requires Coherent(s, queue, now)
    ensures Coherent(s, queue, later) <==> TickClear(s, queue, now, later)
  {
    forall c | c in s.active && !Outstanding(queue, c) ensures Fresh(s, c, later) <==> SamePayloads(s, c, now, later) {
      FreshLaterIff(s, c, now, later);
    }
  }

  /** So it does when nothing in the log is dated in the future. */
  lemma {:induction false} PresentLogIsClear(s: Store, queue: seq<Item>, now: int, later: int)
    requires NoFuture(s.log, now) && now <= later
    ensures TickClear(s, queue, now, later)
  {
    forall key: Key ensures ActivePayload(s.log, key, later) == ActivePayload(s.log, key, now) {
      TimeKeepsFacts(s.log, key, now, later);
    }
  }

  // ---- The log grows ---------------------------------------------------------------------------------------------

  /** Competencies whose facts the appended rows can change. */
  function Affected(log: Log, rows: Log): set<Id> {
    (set l | l in rows.links :: l.competency)
    + (set l, r | l in log.links && r in rows.retractions && r.evidenceId == l.evidenceId :: l.competency)
    + (set l, i | l in log.links && i in rows.invalidations && i.evidenceId == l.evidenceId :: l.competency)
    + (set l, r | l in log.links && r in rows.linkRetractions && r.linkId == l.id :: l.competency)
  }

  lemma {:induction false} UnaffectedRows(s: Store, rows: Log, competency: Id, now: int)
    requires Sound(s) && competency !in Affected(s.log, rows)
    ensures var log := Appended(s.log, rows);
      Rows(log.evidence, log.links, competency, now) == Rows(s.log.evidence, s.log.links, competency, now)
  {
    forall l | l in rows.links ensures l.competency != competency {
      assert l.competency in Affected(s.log, rows);
    }
    RowsExtend(s.log.evidence, rows.evidence, s.log.links, rows.links, competency, now);
  }

  lemma {:induction false} UnaffectedActive(s: Store, rows: Log, f: Fact, now: int)
    requires f.link in s.log.links && f.link.evidenceId == f.evidence.id && f.link.competency !in Affected(s.log, rows)
    ensures Active(Appended(s.log, rows), f, now) == Active(s.log, f, now)
  {
    var log := Appended(s.log, rows);
    forall r | r in rows.retractions ensures r.evidenceId != f.evidence.id {
      assert r.evidenceId == f.link.evidenceId ==> f.link.competency in Affected(s.log, rows);
    }
    forall i | i in rows.invalidations ensures i.evidenceId != f.evidence.id {
      assert i.evidenceId == f.link.evidenceId ==> f.link.competency in Affected(s.log, rows);
    }
    forall r | r in rows.linkRetractions ensures r.linkId != f.link.id {
      assert r.linkId == f.link.id ==> f.link.competency in Affected(s.log, rows);
    }
    assert EvidenceWithdrawn(log, f.evidence.id, now) == EvidenceWithdrawn(s.log, f.evidence.id, now);
    assert LinkWithdrawn(log, f.link.id, now) == LinkWithdrawn(s.log, f.link.id, now);
  }

  /** Facts of a competency change only if a row names one of its links or the evidence behind one. */
  lemma {:induction false} UnaffectedFacts(s: Store, rows: Log, key: Key, now: int)
    requires Sound(s) && key.competency !in Affected(s.log, rows)
    ensures ScopeFacts(Appended(s.log, rows), key, now) == ScopeFacts(s.log, key, now)
  {
    UnaffectedRows(s, rows, key.competency, now);
    var sorted := Sorted(Rows(s.log.evidence, s.log.links, key.competency, now));
    forall f | f in sorted ensures Active(Appended(s.log, rows), f, now) == Active(s.log, f, now) {
      UnaffectedActive(s, rows, f, now);
    }
    KeepActiveAgrees(Appended(s.log, rows), s.log, sorted, now, now);
  }

  /** A command that queues capability work for every affected competency keeps the cache coherent. */
  lemma {:induction false} AppendKeepsCoherence(s: Store, rows: Log, queue: seq<Item>, queue': seq<Item>, now: int)
    requires Sound(s) && Coherent(s, queue, now) && queue <= queue'
    requires forall c :: c in Affected(s.log, rows) ==> Requested(Capability, OfCompetency(c)) in queue'
    ensures Coherent(s.(log := Appended(s.log, rows)), queue', now)
  {
    var t := s.(log := Appended(s.log, rows));
    forall c | c in t.active ensures Outstanding(queue', c) || Fresh(t, c, now) {
      if Outstanding(queue, c) {
        StillOutstanding(queue, queue', c);
      } else if c !in Affected(s.log, rows) {
        FreshnessCarries(s, rows, c, now);
      }
    }
  }

  lemma {:induction false} StillOutstanding(queue: seq<Item>, queue': seq<Item>, c: Id)
    requires queue <= queue' && Outstanding(queue, c)
    ensures Outstanding(queue', c)
  {
    PrefixMembers(queue, queue');
  }

  lemma {:induction false} FreshnessCarries(s: Store, rows: Log, c: Id, now: int)
    requires Sound(s) && Fresh(s, c, now) && c !in Affected(s.log, rows)
    ensures Fresh(s.(log := Appended(s.log, rows)), c, now)
  {
    var t := s.(log := Appended(s.log, rows));
    if ActiveDefinition(s, c).Some? {
      forall dimension | dimension in Scopes(ActiveDefinition(s, c).value)
        ensures ScopeFresh(t, Key(c, dimension), now) {
        UnaffectedFacts(s, rows, Key(c, dimension), now);
        assert ScopeFresh(s, Key(c, dimension), now);
      }
    }
  }

  // ---- One scope is evaluated --------------------------------------------------------------------------------------

  lemma {:induction false} EvaluationKeepsSound(s: Store, d: Definition, dimension: Option<Id>, cutoff: int, stamp: int)
    requires Evaluable(s, d, Key(d.competency, dimension))
    ensures Sound(EvaluateScope(s, d, dimension, cutoff, stamp))
  {
    var key := Key(d.competency, dimension);
    DecidedLevelBelongs(s, d, key, cutoff, stamp);
    RecordIsSound(s, RunFor(s, d, key, cutoff, stamp), IsReplay(s, key, cutoff), LastMeaningful(s, d, key, cutoff));
  }

  lemma {:induction false} ConcludeCaches(s: Store, run: Run, meaningful: Option<int>)
    ensures var t := Conclude(s, run, false, meaningful);
      && t.log == s.log
      && (if AlreadyRun(s.runs, run) then t == s
        else Cached(t, run.key).Some? && t.states[run.key].evidence == run.evidence && run in t.runs)
  {
    if !AlreadyRun(s.runs, run) { assert (s.runs + [run])[|s.runs|] == run; }
  }

  /** The run has the inputs that evaluating the scope at `cutoff` would have. */
  ghost predicate HasInput(r: Run, log: Log, d: Definition, key: Key, cutoff: int) {
    && r.key == key && r.definition == d.id && r.cutoff == cutoff
    && r.evidence == ActivePayload(log, key, cutoff)
    && r.results == Results(ScopeCriteria(d, key.dimension), ScopeFacts(log, key, cutoff))
  }

  /** The scope has been run at this very cutoff with the inputs it has now. */
  ghost predicate InputSeen(s: Store, d: Definition, key: Key, cutoff: int) {
    exists r :: r in s.runs && HasInput(r, s.log, d, key, cutoff)
  }

  lemma {:induction false} SeenIsRun(s: Store, d: Definition, key: Key, cutoff: int, stamp: int)
    requires Evaluable(s, d, key)
    ensures AlreadyRun(s.runs, RunFor(s, d, key, cutoff, stamp)) <==> InputSeen(s, d, key, cutoff)
  {
    var run := RunFor(s, d, key, cutoff, stamp);
    assert HasInput(run, s.log, d, key, cutoff);
    if AlreadyRun(s.runs, run) {
      var r :| r in s.runs && SameInput(r, run);
      assert HasInput(r, s.log, d, key, cutoff);
    }
    if InputSeen(s, d, key, cutoff) {
      var r :| r in s.runs && HasInput(r, s.log, d, key, cutoff);
      assert SameInput(r, run);
    }
  }

  /** Evaluating the scope will record its inputs, or they are the ones cached. */
  ghost predicate ScopeClear(s: Store, d: Definition, key: Key, cutoff: int) {
    InputSeen(s, d, key, cutoff) ==> ScopeFresh(s, key, cutoff)
  }

  /**
   A live evaluation at `cutoff` leaves the scope fresh exactly when its inputs have not been run before at that
   very cutoff, or the cached evidence set was already the active one.
   */
  lemma {:induction false} EvaluationFreshens(s: Store, d: Definition, dimension: Option<Id>, cutoff: int, stamp: int)
    requires Evaluable(s, d, Key(d.competency, dimension)) && !IsReplay(s, Key(d.competency, dimension), cutoff)
    ensures var key, t := Key(d.competency, dimension), EvaluateScope(s, d, dimension, cutoff, stamp);
      && (ScopeFresh(t, key, cutoff) <==> ScopeClear(s, d, key, cutoff))
      && InputSeen(t, d, key, cutoff)
  {
    var key := Key(d.competency, dimension);
    var run, t := RunFor(s, d, key, cutoff, stamp), EvaluateScope(s, d, dimension, cutoff, stamp);
    SeenIsRun(s, d, key, cutoff, stamp);
    ConcludeCaches(s, run, LastMeaningful(s, d, key, cutoff));
    if !AlreadyRun(s.runs, run) {
      assert HasInput(run, t.log, d, key, cutoff);
    }
  }

  /** `t` differs from `s` in one scope's projection and in what has been recorded for it. */
  ghost predicate TouchesOnly(s: Store, t: Store, key: Key) {
    && t.log == s.log && t.active == s.active && t.catalog == s.catalog
    && (forall k :: k != key ==> Cached(t, k) == Cached(s, k))
    && (forall r :: r in t.runs ==> r in s.runs || r.key == key)
    && (forall r :: r in s.runs ==> r in t.runs)
  }

  lemma {:induction false} ConcludeTouchesOneScope(s: Store, run: Run, replay: bool, meaningful: Option<int>)
    ensures TouchesOnly(s, Conclude(s, run, replay, meaningful), run.key)
  {}

  lemma {:induction false} EvaluationTouchesOneScope(
      s: Store, d: Definition, dimension: Option<Id>, cutoff: int, stamp: int)
    requires Evaluable(s, d, Key(d.competency, dimension))
    ensures TouchesOnly(s, EvaluateScope(s, d, dimension, cutoff, stamp), Key(d.competency, dimension))
  {
    var key := Key(d.competency, dimension);
    ConcludeTouchesOneScope(s, RunFor(s, d, key, cutoff, stamp), IsReplay(s, key, cutoff),
      LastMeaningful(s, d, key, cutoff));
  }

  // ---- A competency is evaluated: overall, then every dimension ---------------------------------

  ghost predicate Governs(s: Store, d: Definition) { Sound(s) && d.id in s.catalog && s.catalog[d.id] == d }

  function EvaluateScopes(s: Store, d: Definition, n: nat, cutoff: int, clock: nat -> int): (t: Store)
    requires Governs(s, d) && n <= |Scopes(d)|
    ensures Governs(t, d) && t.log == s.log && t.active == s.active && t.catalog == s.catalog
  {
    if n == 0 then s
    else
      var u := EvaluateScopes(s, d, n - 1, cutoff, clock);
      EvaluationKeepsSound(u, d, Scopes(d)[n - 1], cutoff, clock(n - 1));
      EvaluationTouchesOneScope(u, d, Scopes(d)[n - 1], cutoff, clock(n - 1));
      EvaluateScope(u, d, Scopes(d)[n - 1], cutoff, clock(n - 1))
  }

  lemma {:induction false} ScopesDistinct(d: Definition, i: nat, j: nat)
    requires WellFormedDefinition(d) && i < j < |Scopes(d)|
    ensures Scopes(d)[i] != Scopes(d)[j]
  {}

  /** `t` caches the scope as `s` does and has recorded nothing for it. */
  ghost predicate LeavesAlone(s: Store, t: Store, key: Key) {
    && t.log == s.log && Cached(t, key) == Cached(s, key)
    && (forall r :: r in t.runs && r.key == key ==> r in s.runs)
    && forall r :: r in s.runs ==> r in t.runs
  }

  /** A chain of stores, each step touching the next scope only. */
  ghost predicate Chain(us: seq<Store>, keys: seq<Key>) {
    |us| == |keys| + 1 && forall k {:trigger keys[k]} :: 0 <= k < |keys| ==> TouchesOnly(us[k], us[k + 1], keys[k])
  }

  lemma {:induction false} TouchLeavesOthers(s: Store, u: Store, t: Store, touched: Key, key: Key)
    requires LeavesAlone(s, u, key) && TouchesOnly(u, t, touched) && key != touched
    ensures LeavesAlone(s, t, key)
  {}

  lemma {:induction false} ChainLeavesOthers(us: seq<Store>, keys: seq<Key>, m: nat, n: nat, key: Key)
    requires Chain(us, keys) && m <= n < |us| && forall k :: m <= k < n ==> keys[k] != key
    ensures LeavesAlone(us[m], us[n], key)
  {
    if n > m {
      ChainLeavesOthers(us, keys, m, n - 1, key);
      TouchLeavesOthers(us[m], us[n - 1], us[n], keys[n - 1], key);
    }
  }

  lemma {:induction false} AloneStays(s: Store, t: Store, d: Definition, key: Key, now: int)
    requires LeavesAlone(s, t, key)
    ensures ScopeFresh(t, key, now) <==> ScopeFresh(s, key, now)
    ensures IsReplay(t, key, now) <==> IsReplay(s, key, now)
    ensures InputSeen(t, d, key, now) <==> InputSeen(s, d, key, now)
  {
    if key in s.states { assert Cached(t, key) == Some(s.states[key]); }
    if key in t.states { assert Cached(s, key) == Some(t.states[key]); }
  }

  ghost function ScopeKeys(d: Definition): (r: seq<Key>)
    ensures |r| == |Scopes(d)| && forall i :: 0 <= i < |r| ==> r[i] == Key(d.competency, Scopes(d)[i])
  {
    seq(|Scopes(d)|, i requires 0 <= i < |Scopes(d)| => Key(d.competency, Scopes(d)[i]))
  }

  ghost function EvaluationChain(s: Store, d: Definition, cutoff: int, clock: nat -> int): (us: seq<Store>)
    requires Governs(s, d)
    ensures |us| == |Scopes(d)| + 1 && forall k :: 0 <= k < |us| ==> us[k] == EvaluateScopes(s, d, k, cutoff, clock)
  {
    seq(|Scopes(d)| + 1, k requires 0 <= k < |Scopes(d)| + 1 => EvaluateScopes(s, d, k, cutoff, clock))
  }

  lemma {:induction false} ScopesStep(s: Store, d: Definition, n: nat, cutoff: int, clock: nat -> int)
    requires Governs(s, d) && n < |Scopes(d)|
    ensures TouchesOnly(
      EvaluateScopes(s, d, n, cutoff, clock), EvaluateScopes(s, d, n + 1, cutoff, clock),
      Key(d.competency, Scopes(d)[n]))
  {
    EvaluationTouchesOneScope(EvaluateScopes(s, d, n, cutoff, clock), d, Scopes(d)[n], cutoff, clock(n));
  }

  lemma {:induction false} EvaluationIsChain(s: Store, d: Definition, cutoff: int, clock: nat -> int)
    requires Governs(s, d)
    ensures Chain(EvaluationChain(s, d, cutoff, clock), ScopeKeys(d))
  {
    forall k | 0 <= k < |ScopeKeys(d)|
      ensures TouchesOnly(
        EvaluationChain(s, d, cutoff, clock)[k], EvaluationChain(s, d, cutoff, clock)[k + 1], ScopeKeys(d)[k])
    {
      ScopesStep(s, d, k, cutoff, clock);
    }
  }

  lemma {:induction false} ScopeKeysDistinct(d: Definition)
    requires WellFormedDefinition(d)
    ensures forall i, j :: 0 <= i < j < |ScopeKeys(d)| ==> ScopeKeys(d)[i] != ScopeKeys(d)[j]
  {
    forall i, j | 0 <= i < j < |ScopeKeys(d)| ensures ScopeKeys(d)[i] != ScopeKeys(d)[j] { ScopesDistinct(d, i, j); }
  }

  /** Whether a step settles one scope as `EvaluationFreshens` says. */
  ghost predicate Settles(s: Store, t: Store, d: Definition, key: Key, now: int) {
    !IsReplay(s, key, now) ==> (ScopeFresh(t, key, now) <==> ScopeClear(s, d, key, now)) && InputSeen(t, d, key, now)
  }

  lemma {:induction false} ChainSettles(us: seq<Store>, keys: seq<Key>, d: Definition, i: nat, now: int)
    requires Chain(us, keys) && i < |keys| && (forall k :: 0 <= k < |keys| && k != i ==> keys[k] != keys[i])
    requires Settles(us[i], us[i + 1], d, keys[i], now)
    ensures Settles(us[0], us[|keys|], d, keys[i], now)
  {
    ChainLeavesOthers(us, keys, 0, i, keys[i]);
    AloneStays(us[0], us[i], d, keys[i], now);
    ChainLeavesOthers(us, keys, i + 1, |keys|, keys[i]);
    AloneStays(us[i + 1], us[|keys|], d, keys[i], now);
  }

  lemma {:induction false} StepSettles(s: Store, d: Definition, cutoff: int, clock: nat -> int, i: nat)
    requires Governs(s, d) && i < |Scopes(d)|
    ensures Settles(
      EvaluateScopes(s, d, i, cutoff, clock), EvaluateScopes(s, d, i + 1, cutoff, clock), d,
      Key(d.competency, Scopes(d)[i]), cutoff)
  {
    var u, key := EvaluateScopes(s, d, i, cutoff, clock), Key(d.competency, Scopes(d)[i]);
    if !IsReplay(u, key, cutoff) { EvaluationFreshens(u, d, Scopes(d)[i], cutoff, clock(i)); }
  }

  /** Evaluating all scopes leaves each one fresh exactly when it was clear. */
  lemma {:induction false} ScopesSettle(s: Store, d: Definition, cutoff: int, clock: nat -> int, i: nat)
    requires Governs(s, d) && i < |Scopes(d)|
    ensures Settles(s, EvaluateScopes(s, d, |Scopes(d)|, cutoff, clock), d, Key(d.competency, Scopes(d)[i]), cutoff)
  {
    var us, keys := EvaluationChain(s, d, cutoff, clock), ScopeKeys(d);
    EvaluationIsChain(s, d, cutoff, clock);
    ScopeKeysDistinct(d);
    StepSettles(s, d, cutoff, clock, i);
    ChainSettles(us, keys, d, i, cutoff);
  }

  lemma {:induction false} OtherCompetencyAlone(s: Store, d: Definition, cutoff: int, clock: nat -> int, key: Key)
    requires Governs(s, d) && key.competency != d.competency
    ensures LeavesAlone(s, EvaluateScopes(s, d, |Scopes(d)|, cutoff, clock), key)
  {
    EvaluationIsChain(s, d, cutoff, clock);
    ChainLeavesOthers(EvaluationChain(s, d, cutoff, clock), ScopeKeys(d), 0, |Scopes(d)|, key);
  }

  /** Nothing recorded or cached is cut off after `now`. */
  ghost predicate NotAhead(s: Store, now: int) {
    && (forall r :: r in s.runs ==> r.cutoff <= now)
    && (forall k :: k in s.states ==> s.states[k].lastEvaluated <= now)
  }

  ghost predicate RecordedFrom(log: Log, r: Run, c: Id, cutoff: int) {
    r.key.competency == c && r.cutoff == cutoff && r.evidence == ActivePayload(log, r.key, cutoff)
  }

  ghost predicate RunsOnly(log: Log, before: seq<Run>, after: seq<Run>, c: Id, cutoff: int) {
    forall r :: r in after ==> r in before || RecordedFrom(log, r, c, cutoff)
  }

  ghost predicate CachesOnly(before: map<Key, Projection>, after: map<Key, Projection>, cutoff: int) {
    forall k :: k in after ==> (k in before && after[k] == before[k]) || after[k].lastEvaluated == cutoff
  }

  /** From `s` to `t` only runs of the competency at the cutoff are recorded, on the facts active then, and cached. */
  ghost predicate RecordsOnly(s: Store, t: Store, c: Id, cutoff: int) {
    t.log == s.log && RunsOnly(s.log, s.runs, t.runs, c, cutoff) && CachesOnly(s.states, t.states, cutoff)
  }

  lemma {:induction false} OneRunOnly(log: Log, runs: seq<Run>, run: Run)
    requires RecordedFrom(log, run, run.key.competency, run.cutoff)
    ensures RunsOnly(log, runs, runs + [run], run.key.competency, run.cutoff)
  {}

  lemma {:induction false} OneCacheOnly(states: map<Key, Projection>, key: Key, p: Projection)
    ensures CachesOnly(states, states[key := p], p.lastEvaluated)
  {}

  lemma {:induction false} ConcludeRecordsOnly(s: Store, run: Run, replay: bool, meaningful: Option<int>)
    requires RecordedFrom(s.log, run, run.key.competency, run.cutoff)
    ensures RecordsOnly(s, Conclude(s, run, replay, meaningful), run.key.competency, run.cutoff)
  {
    var t := Conclude(s, run, replay, meaningful);
    if !AlreadyRun(s.runs, run) {
      OneRunOnly(s.log, s.runs, run);
      if !replay { OneCacheOnly(s.states, run.key, t.states[run.key]); }
    }
  }

  lemma {:induction false} ScopeRecordsOnly(s: Store, d: Definition, n: nat, cutoff: int, clock: nat -> int)
    requires Governs(s, d) && n < |Scopes(d)|
    ensures RecordsOnly(
      EvaluateScopes(s, d, n, cutoff, clock), EvaluateScopes(s, d, n + 1, cutoff, clock), d.competency, cutoff)
  {
    var u, dimension := EvaluateScopes(s, d, n, cutoff, clock), Scopes(d)[n];
    var key := Key(d.competency, dimension);
    ConcludeRecordsOnly(u, RunFor(u, d, key, cutoff, clock(n)), IsReplay(u, key, cutoff),
      LastMeaningful(u, d, key, cutoff));
  }

  lemma {:induction false} ChainRecordsOnly(us: seq<Store>, n: nat, c: Id, cutoff: int)
    requires n < |us| && forall k: nat {:trigger us[k]} :: k + 1 < |us| ==> RecordsOnly(us[k], us[k + 1], c, cutoff)
    ensures RecordsOnly(us[0], us[n], c, cutoff)
  {
    if n > 0 {
      ChainRecordsOnly(us, n - 1, c, cutoff);
      assert RecordsOnly(us[n - 1], us[n - 1 + 1], c, cutoff);
    }
  }

  /** An evaluation records runs of its own competency at its own cutoff only. */
  lemma {:induction false} EvaluationRecordsItsOwn(s: Store, d: Definition, cutoff: int, clock: nat -> int)
    requires Governs(s, d)
    ensures RecordsOnly(s, EvaluateScopes(s, d, |Scopes(d)|, cutoff, clock), d.competency, cutoff)
  {
    var us := EvaluationChain(s, d, cutoff, clock);
    forall k: nat {:trigger us[k]} | k + 1 < |us| ensures RecordsOnly(us[k], us[k + 1], d.competency, cutoff) {
      ScopeRecordsOnly(s, d, k, cutoff, clock);
    }
    ChainRecordsOnly(us, |us| - 1, d.competency, cutoff);
  }

  lemma {:induction false} ScopesStayBehind(s: Store, d: Definition, now: int, clock: nat -> int)
    requires Governs(s, d) && NotAhead(s, now)
    ensures NotAhead(EvaluateScopes(s, d, |Scopes(d)|, now, clock), now)
  {
    EvaluationRecordsItsOwn(s, d, now, clock);
  }

  // ---- Work is claimed, finished, failed and recovered ------------------------------------------

  /** The competency a queue item is about; criteria belong to one. */
  function ItemCompetency(item: Item, owners: map<Id, Id>): Option<Id> {
    match item.subject
    case OfCompetency(c) => Some(c)
    case OfCriterion(c) => if c in owners then Some(owners[c]) else None
  }

  /** What finishing an item does to the store: its competency is evaluated, if it has an active definition. */
  function EvaluateCompetency(s: Store, competency: Option<Id>, cutoff: int, clock: nat -> int): (t: Store)
    requires Sound(s)
    ensures Sound(t)
  {
    if competency.None? || ActiveDefinition(s, competency.value).None? then s
    else
      var d := ActiveDefinition(s, competency.value).value;
      EvaluateScopes(s, d, |Scopes(d)|, cutoff, clock)
  }

  ghost predicate AllClear(s: Store, d: Definition, c: Id, now: int) {
    forall dimension :: dimension in Scopes(d) ==> ScopeClear(s, d, Key(c, dimension), now)
  }

  /** Every scope of the competency is clear: what an evaluation at `now` needs to leave it fresh. */
  ghost predicate Clear(s: Store, c: Id, now: int) {
    ActiveDefinition(s, c).Some? ==> AllClear(s, ActiveDefinition(s, c).value, c, now)
  }

  /** A fresh competency is clear, at whatever instant and however often it has been run there. */
  lemma {:induction false} FreshIsClear(s: Store, c: Id, now: int)
    requires Fresh(s, c, now)
    ensures Clear(s, c, now)
  {}

  /** So is one that no run was cut off at `now`. */
  lemma {:induction false} UnusedIsClear(s: Store, c: Id, now: int)
    requires forall r :: r in s.runs && r.key.competency == c ==> r.cutoff != now
    ensures Clear(s, c, now)
  {}

  lemma {:induction false} AllScopesSettle(s: Store, d: Definition, now: int, clock: nat -> int, dimension: Option<Id>)
    requires Governs(s, d) && NotAhead(s, now) && dimension in Scopes(d)
    ensures var t, key := EvaluateScopes(s, d, |Scopes(d)|, now, clock), Key(d.competency, dimension);
      (ScopeFresh(t, key, now) <==> ScopeClear(s, d, key, now)) && InputSeen(t, d, key, now)
  {
    var i :| 0 <= i < |Scopes(d)| && Scopes(d)[i] == dimension;
    ScopesSettle(s, d, now, clock, i);
  }

  /** The inputs of every scope have been run at this instant. */
  ghost predicate AllSeen(s: Store, d: Definition, c: Id, now: int) {
    forall dimension :: dimension in Scopes(d) ==> InputSeen(s, d, Key(c, dimension), now)
  }

  lemma {:induction false} EvaluationSettles(s: Store, d: Definition, now: int, clock: nat -> int)
    requires Governs(s, d) && NotAhead(s, now)
    ensures var t := EvaluateScopes(s, d, |Scopes(d)|, now, clock);
      (AllFresh(t, d, d.competency, now) <==> AllClear(s, d, d.competency, now)) && AllSeen(t, d, d.competency, now)
  {
    forall dimension | dimension in Scopes(d)
      ensures var t, key := EvaluateScopes(s, d, |Scopes(d)|, now, clock), Key(d.competency, dimension);
        (ScopeFresh(t, key, now) <==> ScopeClear(s, d, key, now)) && InputSeen(t, d, key, now)
    {
      AllScopesSettle(s, d, now, clock, dimension);
    }
  }

  lemma {:induction false} SettledIsFreshIff(s: Store, t: Store, d: Definition, c: Id, now: int)
    requires ActiveDefinition(s, c) == Some(d) && ActiveDefinition(t, c) == Some(d)
    requires AllFresh(t, d, c, now) <==> AllClear(s, d, c, now)
    ensures Fresh(t, c, now) <==> Clear(s, c, now)
  {}

  lemma {:induction false} EvaluationOf(s: Store, c: Id, now: int, clock: nat -> int) returns (d: Definition)
    requires Sound(s) && c in s.active
    ensures d == s.catalog[s.active[c]] && ActiveDefinition(s, c) == Some(d) && d.competency == c && Governs(s, d)
    ensures EvaluateCompetency(s, Some(c), now, clock) == EvaluateScopes(s, d, |Scopes(d)|, now, clock)
    ensures ActiveDefinition(EvaluateCompetency(s, Some(c), now, clock), c) == Some(d)
  {
    d := s.catalog[s.active[c]];
  }

  /** Evaluating a competency leaves it fresh exactly when it is clear, and its inputs seen either way. */
  lemma {:induction false} EvaluatedIsFreshIff(s: Store, c: Id, now: int, clock: nat -> int)
    requires Sound(s) && NotAhead(s, now) && c in s.active
    ensures var t := EvaluateCompetency(s, Some(c), now, clock);
      (Fresh(t, c, now) <==> Clear(s, c, now)) && AllSeen(t, s.catalog[s.active[c]], c, now)
  {
    var d := EvaluationOf(s, c, now, clock);
    EvaluationSettles(s, d, now, clock);
    SettledIsFreshIff(s, EvaluateCompetency(s, Some(c), now, clock), d, c, now);
  }

  lemma {:induction false} OtherScopeStaysFresh(s: Store, d: Definition, now: int, clock: nat -> int, key: Key)
    requires Governs(s, d) && key.competency != d.competency && ScopeFresh(s, key, now)
    ensures ScopeFresh(EvaluateScopes(s, d, |Scopes(d)|, now, clock), key, now)
  {
    OtherCompetencyAlone(s, d, now, clock, key);
    AloneStays(s, EvaluateScopes(s, d, |Scopes(d)|, now, clock), d, key, now);
  }

  lemma {:induction false} OthersStayFresh(s: Store, competency: Option<Id>, now: int, clock: nat -> int, c: Id)
    requires Sound(s) && competency != Some(c) && Fresh(s, c, now)
    ensures Fresh(EvaluateCompetency(s, competency, now, clock), c, now)
  {
    var t := EvaluateCompetency(s, competency, now, clock);
    if competency.Some? && ActiveDefinition(s, competency.value).Some? && ActiveDefinition(s, c).Some? {
      var d := ActiveDefinition(s, competency.value).value;
      forall dimension | dimension in Scopes(ActiveDefinition(s, c).value)
        ensures ScopeFresh(t, Key(c, dimension), now) {
        OtherScopeStaysFresh(s, d, now, clock, Key(c, dimension));
      }
    }
  }

  lemma {:induction false} OutstandingElsewhere(queue: seq<Item>, i: nat, item: Item, c: Id)
    requires i < |queue| && Outstanding(queue, c)
    requires item.kind == queue[i].kind && item.subject == queue[i].subject
    requires item.status != Completed || queue[i].subject != OfCompetency(c)
    ensures Outstanding(queue[i := item], c)
  {
    var x :| x in queue && x.kind == Capability && x.subject == OfCompetency(c) && x.status != Completed;
    var j :| 0 <= j < |queue| && queue[j] == x;
    assert queue[i := item][j] in queue[i := item];
    assert queue[i := item][i] in queue[i := item];
  }

  /** What finishing item `i` needs: its competency is clear, or has another capability item that is not completed. */
  ghost predicate FinishClear(s: Store, queue: seq<Item>, i: nat, owners: map<Id, Id>, now: int)
    requires i < |queue|
  {
    var competency := ItemCompetency(queue[i], owners);
    competency.Some? && competency.value in s.active ==>
      Clear(s, competency.value, now) || Outstanding(queue[i := queue[i].(status := Completed)], competency.value)
  }

  lemma {:induction false} OthersStayCoherent(
      s: Store, queue: seq<Item>, i: nat, owners: map<Id, Id>, now: int, clock: nat -> int, c: Id)
    requires Sound(s) && i < |queue| && c in s.active && (Outstanding(queue, c) || Fresh(s, c, now))
    requires ItemCompetency(queue[i], owners) != Some(c)
    ensures Outstanding(queue[i := queue[i].(status := Completed)], c)
      || Fresh(EvaluateCompetency(s, ItemCompetency(queue[i], owners), now, clock), c, now)
  {
    if Outstanding(queue, c) {
      OutstandingElsewhere(queue, i, queue[i].(status := Completed), c);
    } else {
      OthersStayFresh(s, ItemCompetency(queue[i], owners), now, clock, c);
    }
  }

  /**
   Finishing an item evaluates its competency and completes the item, in one transaction.  It keeps the cache
   coherent exactly when the competency is clear or has other capability work.
   */
  lemma {:induction false} FinishKeepsCoherenceIff(
      s: Store, queue: seq<Item>, i: nat, owners: map<Id, Id>, now: int, clock: nat -> int)
    requires Sound(s) && i < |queue| && Coherent(s, queue, now) && NotAhead(s, now)
    ensures Coherent(EvaluateCompetency(s, ItemCompetency(queue[i], owners), now, clock),
        queue[i := queue[i].(status := Completed)], now)
      <==> FinishClear(s, queue, i, owners, now)
  {
    var competency := ItemCompetency(queue[i], owners);
    var t, queue' := EvaluateCompetency(s, competency, now, clock), queue[i := queue[i].(status := Completed)];
    assert t.active == s.active;
    if competency.Some? && competency.value in s.active { EvaluatedIsFreshIff(s, competency.value, now, clock); }
    forall c | c in t.active && competency != Some(c) ensures Outstanding(queue', c) || Fresh(t, c, now) {
      OthersStayCoherent(s, queue, i, owners, now, clock, c);
    }
  }

  /** Claiming, failing and recovering an item change its status and attempts, never to completed. */
  lemma {:induction false} RequeueKeepsCoherence(
      s: Store, queue: seq<Item>, i: nat, status: ItemStatus, attempts: nat, now: int)
    requires i < |queue| && status != Completed && Coherent(s, queue, now)
    ensures Coherent(s, queue[i := queue[i].(status := status, attempts := attempts)], now)
  {
    var item := queue[i].(status := status, attempts := attempts);
    forall c | c in s.active && Outstanding(queue, c) ensures Outstanding(queue[i := item], c) {
      OutstandingElsewhere(queue, i, item, c);
    }
  }

  /** Activating a definition queues capability work for its competency. */
  lemma {:induction false} ActivationKeepsCoherence(
      s: Store, queue: seq<Item>, queue': seq<Item>, competency: Id, definition: Id, now: int)
    requires Coherent(s, queue, now) && queue <= queue' && Requested(Capability, OfCompetency(competency)) in queue'
    ensures Coherent(s.(active := s.active[competency := definition]), queue', now)
  {
    var t := s.(active := s.active[competency := definition]);
    forall c | c in t.active ensures Outstanding(queue', c) || Fresh(t, c, now) {
      if c != competency {
        if Outstanding(queue, c) {
          StillOutstanding(queue, queue', c);
        } else {
          assert Fresh(s, c, now);
          assert ActiveDefinition(t, c) == ActiveDefinition(s, c);
        }
      }
    }
  }
}

/**
 Where the cache loses touch with the log: a change undone in the millisecond of the evaluations around it, and a
 replacement link on a competency that gets no work.
 */
module CoherenceLost {
  import opened Base
  import opened Model
  import opened ActiveFacts
  import opened Downgrade
  import opened Evaluation
  import opened HistoryRuns
  import opened Freshness
  import opened Coherence

  // ---- One more link ----------------------------------------------------------------------------

  lemma {:induction false} KeepActiveOfConcat(log: Log, a: seq<Fact>, b: seq<Fact>, now: int)
    ensures KeepActive(log, a + b, now) == KeepActive(log, a, now) + KeepActive(log, b, now)
  {
    if b == [] {
      assert a + b == a;
    } else {
      assert (a + b)[..|a + b| - 1] == a + b[..|b| - 1];
      KeepActiveOfConcat(log, a, b[..|b| - 1], now);
    }
  }

  lemma {:induction false} KeepActiveOfOne(log: Log, f: Fact, now: int)
    ensures KeepActive(log, [f], now) == if Active(log, f, now) then [f] else []
  {
    assert [f][..0] == [];
  }

  /** Sorting a row in and filtering it out leaves the rest. */
  lemma {:induction false} InactiveRowIsDropped(log: Log, rows: seq<Fact>, f: Fact, now: int)
    requires !Active(log, f, now)
    ensures KeepActive(log, Insert(rows, f), now) == KeepActive(log, rows, now)
  {
    KeepActiveOfOne(log, f, now);
    if rows == [] || Ordered(f, rows[0]) {
      KeepActiveOfConcat(log, [f], rows, now);
    } else {
      InactiveRowIsDropped(log, rows[1..], f, now);
      KeepActiveOfConcat(log, [rows[0]], rows[1..], now);
      KeepActiveOfConcat(log, [rows[0]], Insert(rows[1..], f), now);
      assert rows == [rows[0]] + rows[1..];
    }
  }

  /** The rows leave what the log already links to the competency as it was. */
  ghost predicate KeepsActive(log: Log, rows: Log, c: Id, now: int) {
    forall f: Fact :: f.link in log.links && f.link.competency == c && f.link.evidenceId == f.evidence.id ==>
      Active(Appended(log, rows), f, now) == Active(log, f, now)
  }

  /** A new link whose fact is not active changes nothing for its competency. */
  lemma {:induction false} InactiveLinkIsNeutral(s: Store, rows: Log, l: Link, now: int)
    requires Sound(s) && rows.links == [l] && KeepsActive(s.log, rows, l.competency, now)
    requires var row := RowOf(Appended(s.log, rows).evidence, l, l.competency, now);
      row.Some? ==> !Active(Appended(s.log, rows), row.value, now)
    ensures FactsAt(Appended(s.log, rows), l.competency, now) == FactsAt(s.log, l.competency, now)
  {
    var log, c := Appended(s.log, rows), l.competency;
    var before := Rows(s.log.evidence, s.log.links, c, now);
    var row := RowOf(log.evidence, l, c, now);
    LinkAddsItsRow(s, rows, l, now);
    if row.Some? {
      assert (before + [row.value])[..|before|] == before;
      InactiveRowIsDropped(log, Sorted(before), row.value, now);
    } else {
      assert before + [] == before;
    }
    KeepActiveAgrees(log, s.log, Sorted(before), now, now);
  }

  lemma {:induction false} LinkAddsItsRow(s: Store, rows: Log, l: Link, now: int)
    requires Sound(s) && rows.links == [l]
    ensures var log := Appended(s.log, rows);
      Rows(log.evidence, log.links, l.competency, now) == Rows(s.log.evidence, s.log.links, l.competency, now)
        + match RowOf(log.evidence, l, l.competency, now) case Some(f) => [f] case None => []
  {
    var log := Appended(s.log, rows);
    RowsExtend(s.log.evidence, rows.evidence, s.log.links, [], l.competency, now);
    assert s.log.links + [] == s.log.links;
    assert log.links[..|log.links| - 1] == s.log.links;
  }

  ghost predicate Mentions(payload: seq<Payload>, link: Id) { exists p :: p in payload && p.linkId == link }

  lemma {:induction false} OnlyLoggedLinksAreMentioned(log: Log, key: Key, now: int, id: Id)
    requires forall m :: m in log.links ==> m.id != id
    ensures !Mentions(ActivePayload(log, key, now), id)
  {
    var facts := ScopeFacts(log, key, now);
    forall p | p in Payloads(facts) ensures p.linkId != id {
      var i :| 0 <= i < |facts| && Payloads(facts)[i] == p;
      assert facts[i] in facts;
    }
  }

  lemma {:induction false} ActiveLinkIsMentioned(log: Log, l: Link, now: int)
    requires l in log.links && RowOf(log.evidence, l, l.competency, now).Some?
    requires Active(log, RowOf(log.evidence, l, l.competency, now).value, now)
    ensures Mentions(ActivePayload(log, Key(l.competency, l.dimension), now), l.id)
  {
    var facts := ScopeFacts(log, Key(l.competency, l.dimension), now);
    var f := RowOf(log.evidence, l, l.competency, now).value;
    assert f in FactsAt(log, l.competency, now);
    var i :| 0 <= i < |facts| && facts[i] == f;
    assert Payloads(facts)[i] == PayloadOf(f);
  }

  // ---- Reachable worlds -------------------------------------------------------------------------

  ghost predicate Reachable(w: World) {
    exists trace, moves :: IsHistoryOf(trace, moves) && trace[|moves|] == w
  }

  lemma {:induction false} InitialIsReachable(w: World)
    requires Initial(w.store) && w.store.active == map[] && w.store.log == Log([], [], [], [], [])
    ensures Reachable(w)
  {
    var trace, moves: seq<Move> := [w], [];
    assert IsHistoryOf(trace, moves) && trace[|moves|] == w;
  }

  lemma {:induction false} HistoryExtends(trace: seq<World>, moves: seq<Move>, m: Move, next: World)
    requires IsHistoryOf(trace, moves) && Allowed(trace[|moves|], m) && next == Moved(trace[|moves|], m)
    ensures IsHistoryOf(trace + [next], moves + [m])
  {
    forall i: nat | i < |moves| + 1 ensures StepAt(trace + [next], moves + [m], i) {
      if i < |moves| { StepStays(trace, moves, m, next, i); }
    }
  }

  lemma {:induction false} StepStays(trace: seq<World>, moves: seq<Move>, m: Move, next: World, i: nat)
    requires IsHistoryOf(trace, moves) && i < |moves|
    ensures StepAt(trace + [next], moves + [m], i)
  {
    assert StepAt(trace, moves, i);
  }

  lemma {:induction false} MoveReaches(w: World, m: Move)
    requires Reachable(w) && Allowed(w, m)
    ensures Reachable(Moved(w, m))
  {
    var trace, moves :| IsHistoryOf(trace, moves) && trace[|moves|] == w;
    HistoryExtends(trace, moves, m, Moved(w, m));
    HistoryReaches(trace + [Moved(w, m)], moves + [m], Moved(w, m));
  }

  lemma {:induction false} HistoryReaches(trace: seq<World>, moves: seq<Move>, w: World)
    requires IsHistoryOf(trace, moves) && trace[|moves|] == w
    ensures Reachable(w)
  {}

  lemma {:induction false} ReachableIsBehind(w: World)
    requires Reachable(w)
    ensures NotAhead(w.store, w.now)
  {
    var trace, moves :| IsHistoryOf(trace, moves) && trace[|moves|] == w;
    StaysBehind(trace, moves, |moves|);
  }

  /** Runs name only links of the log. */
  ghost predicate RunsMentionLogged(s: Store) {
    forall r, id :: r in s.runs && Mentions(r.evidence, id) ==> exists m :: m in s.log.links && m.id == id
  }

  lemma {:induction false} PayloadMentionsLogged(log: Log, key: Key, now: int, id: Id)
    requires Mentions(ActivePayload(log, key, now), id)
    ensures exists m :: m in log.links && m.id == id
  {
    if forall m :: m in log.links ==> m.id != id { OnlyLoggedLinksAreMentioned(log, key, now, id); }
  }

  lemma {:induction false} RecordedMentionLogged(s: Store, t: Store, c: Id, cutoff: int)
    requires RunsMentionLogged(s) && RecordsOnly(s, t, c, cutoff)
    ensures RunsMentionLogged(t)
  {
    forall r, id | r in t.runs && Mentions(r.evidence, id) ensures exists m :: m in t.log.links && m.id == id {
      if r !in s.runs { PayloadMentionsLogged(s.log, r.key, cutoff, id); }
    }
  }

  lemma {:induction false} EvaluationMentionsLogged(s: Store, competency: Option<Id>, now: int, clock: nat -> int)
    requires Sound(s) && RunsMentionLogged(s)
    ensures RunsMentionLogged(EvaluateCompetency(s, competency, now, clock))
  {
    if competency.Some? && ActiveDefinition(s, competency.value).Some? {
      var d := ActiveDefinition(s, competency.value).value;
      EvaluationRecordsItsOwn(s, d, now, clock);
      RecordedMentionLogged(s, EvaluateScopes(s, d, |Scopes(d)|, now, clock), d.competency, now);
    }
  }

  lemma {:induction false} MoveMentionsLogged(w: World, m: Move)
    requires RunsMentionLogged(w.store) && Allowed(w, m)
    ensures RunsMentionLogged(Moved(w, m).store)
  {
    match m {
      case Command(rows, items) => LogMentionsMore(w.store, rows);
      case Finish(i, clock) =>
        EvaluationMentionsLogged(w.store, ItemCompetency(w.queue[i], w.owners), w.now, clock);
      case _ =>
    }
  }

  lemma {:induction false} LogMentionsMore(s: Store, rows: Log)
    requires RunsMentionLogged(s)
    ensures RunsMentionLogged(s.(log := Appended(s.log, rows)))
  {
    forall r, id | r in s.runs && Mentions(r.evidence, id) ensures exists m ::
      m in s.log.links + rows.links && m.id == id {
      var m :| m in s.log.links && m.id == id;
      assert m in s.log.links + rows.links;
    }
  }

  lemma {:induction false} HistoryMentionsLogged(trace: seq<World>, moves: seq<Move>, n: nat)
    requires IsHistoryOf(trace, moves) && n < |trace|
    ensures RunsMentionLogged(trace[n].store)
  {
    if n > 0 {
      HistoryMentionsLogged(trace, moves, n - 1);
      assert StepAt(trace, moves, n - 1);
      MoveMentionsLogged(trace[n - 1], moves[n - 1]);
    }
  }

  lemma {:induction false} ReachableMentionsLogged(w: World)
    requires Reachable(w)
    ensures RunsMentionLogged(w.store)
  {
    var trace, moves :| IsHistoryOf(trace, moves) && trace[|moves|] == w;
    HistoryMentionsLogged(trace, moves, |moves|);
  }

  // ---- A link made and taken back in one millisecond --------------------------------------------

  /** The competency is fresh, and its inputs have been run at this instant. */
  ghost predicate JustEvaluated(s: Store, c: Id, now: int) {
    c in s.active && ActiveDefinition(s, c).Some? && Fresh(s, c, now)
      && AllSeen(s, ActiveDefinition(s, c).value, c, now)
  }

  /** New rows for one link: their ids are unused, and they are dated at the instant or before. */
  ghost predicate NewLink(log: Log, e: Evidence, l: Link, now: int) {
    && l.evidenceId == e.id && e.createdAt <= now && l.createdAt <= now
      && (e.occurredAt.Some? ==> e.occurredAt.value <= now)
    && (forall x :: x in log.evidence ==> x.id != e.id) && (forall m :: m in log.links ==> m.id != l.id)
    && (forall r :: r in log.retractions ==> r.evidenceId != e.id)
      && (forall i :: i in log.invalidations ==> i.evidenceId != e.id)
    && forall r :: r in log.linkRetractions ==> r.linkId != l.id
  }

  function Linked(e: Evidence, l: Link): Log { Log([e], [l], [], [], []) }

  function Unlinked(l: Link, now: int): Log { Log([], [], [], [], [LinkRetraction(l.id, now)]) }

  lemma {:induction false} LinkedIsSound(s: Store, e: Evidence, l: Link, now: int)
    requires Sound(s) && NewLink(s.log, e, l, now)
    ensures Sound(s.(log := Appended(s.log, Linked(e, l))))
    ensures EvidenceById(Appended(s.log, Linked(e, l)).evidence, e.id) == Some(e)
  {
    forall m | m in s.log.links + [l] ensures EvidenceById(s.log.evidence + [e], m.evidenceId).Some? {
      EvidenceByIdStable(s.log.evidence, [e], m.evidenceId);
    }
    EvidenceByIdStable(s.log.evidence, [e], e.id);
  }

  /** Linking shows in the scope's payload. */
  lemma {:induction false} LinkingShows(s: Store, e: Evidence, l: Link, now: int)
    requires Sound(s) && NewLink(s.log, e, l, now)
    ensures Mentions(ActivePayload(Appended(s.log, Linked(e, l)), Key(l.competency, l.dimension), now), l.id)
    ensures !Mentions(ActivePayload(s.log, Key(l.competency, l.dimension), now), l.id)
  {
    var log := Appended(s.log, Linked(e, l));
    LinkedIsSound(s, e, l, now);
    assert l in log.links;
    assert log.retractions == s.log.retractions && log.invalidations == s.log.invalidations;
    assert log.linkRetractions == s.log.linkRetractions;
    ActiveLinkIsMentioned(log, l, now);
    OnlyLoggedLinksAreMentioned(s.log, Key(l.competency, l.dimension), now, l.id);
  }

  /** Linking and unlinking at one instant leaves the facts as they were. */
  lemma {:induction false} UnlinkingRestores(s: Store, e: Evidence, l: Link, now: int, key: Key)
    requires Sound(s) && NewLink(s.log, e, l, now) && key.competency == l.competency
    ensures ScopeFacts(Appended(Appended(s.log, Linked(e, l)), Unlinked(l, now)), key, now)
      == ScopeFacts(s.log, key, now)
  {
    var rows := Log([e], [l], [], [], [LinkRetraction(l.id, now)]);
    var log := Appended(s.log, rows);
    assert Appended(Appended(s.log, Linked(e, l)), Unlinked(l, now)) == log by {
      assert s.log.evidence + [e] + [] == s.log.evidence + [e] && s.log.links + [l] + [] == s.log.links + [l];
      assert s.log.linkRetractions + [] + rows.linkRetractions == s.log.linkRetractions + rows.linkRetractions;
    }
    assert LinkRetraction(l.id, now) in log.linkRetractions;
    assert log.retractions == s.log.retractions && log.invalidations == s.log.invalidations;
    forall f: Fact | f.link in s.log.links && f.link.competency == l.competency && f.link.evidenceId == f.evidence.id
      ensures Active(log, f, now) == Active(s.log, f, now)
    {
      assert LinkWithdrawn(log, f.link.id, now) == LinkWithdrawn(s.log, f.link.id, now);
    }
    InactiveLinkIsNeutral(s, rows, l, now);
  }

  lemma {:induction false} RunsAreKept(s: Store, c: Id, now: int, clock: nat -> int)
    requires Sound(s)
    ensures forall r :: r in s.runs ==> r in EvaluateCompetency(s, Some(c), now, clock).runs
  {
    if ActiveDefinition(s, c).Some? {
      OtherCompetencyAlone(s, ActiveDefinition(s, c).value, now, clock, Key(c + 1, None));
    }
  }

  /** What evaluating a competency does to one of its scopes. */
  lemma {:induction false} EvaluatedScope(s: Store, d: Definition, key: Key, now: int, clock: nat -> int)
    requires Sound(s) && NotAhead(s, now) && ActiveDefinition(s, key.competency) == Some(d)
    requires key.dimension in Scopes(d)
    ensures var t := EvaluateCompetency(s, Some(key.competency), now, clock);
      && t.log == s.log && t.active == s.active && t.catalog == s.catalog
      && (ScopeFresh(t, key, now) <==> ScopeClear(s, d, key, now))
  {
    AllScopesSettle(s, d, now, clock, key.dimension);
  }

  lemma {:induction false} UnmentionedIsUnseen(s: Store, log: Log, d: Definition, key: Key, now: int, id: Id)
    requires RunsMentionLogged(s) && (forall m :: m in s.log.links ==> m.id != id)
    requires Mentions(ActivePayload(log, key, now), id)
    ensures !InputSeen(s.(log := log), d, key, now)
  {
    forall r | r in s.runs ensures !HasInput(r, log, d, key, now) {
      assert !Mentions(r.evidence, id);
    }
  }

  /** No run has seen a link that was not logged. */
  lemma {:induction false} NewLinkIsUnseen(s: Store, d: Definition, e: Evidence, l: Link, now: int)
    requires Sound(s) && RunsMentionLogged(s) && NewLink(s.log, e, l, now)
    ensures !InputSeen(s.(log := Appended(s.log, Linked(e, l))), d, Key(l.competency, l.dimension), now)
  {
    LinkingShows(s, e, l, now);
    UnmentionedIsUnseen(s, Appended(s.log, Linked(e, l)), d, Key(l.competency, l.dimension), now, l.id);
  }

  /** Linked: the scope's evaluation caches the link. */
  lemma {:induction false} LinkingIsCached(
      s: Store, u: Store, d: Definition, e: Evidence, l: Link, now: int, clock: nat -> int)
    requires Sound(s) && NotAhead(s, now) && RunsMentionLogged(s) && NewLink(s.log, e, l, now)
    requires ActiveDefinition(s, l.competency) == Some(d) && l.dimension in Scopes(d)
    requires u == s.(log := Appended(s.log, Linked(e, l))) && Sound(u)
    ensures var t, key := EvaluateCompetency(u, Some(l.competency), now, clock), Key(l.competency, l.dimension);
      && t.log == u.log && t.active == s.active && t.catalog == s.catalog
      && key in t.states && Mentions(t.states[key].evidence, l.id) && forall r :: r in s.runs ==> r in t.runs
  {
    LinkingShows(s, e, l, now);
    NewLinkIsUnseen(s, d, e, l, now);
    EvaluatedScope(u, d, Key(l.competency, l.dimension), now, clock);
    RunsAreKept(u, l.competency, now, clock);
  }

  /** Unlinked at the same instant: the evaluation finds the run from before the link and refreshes nothing. */
  lemma {:induction false} UnlinkingIsMissed(
      s: Store, t: Store, d: Definition, e: Evidence, l: Link, now: int, clock: nat -> int)
    requires Sound(s) && NewLink(s.log, e, l, now) && ActiveDefinition(s, l.competency) == Some(d)
    requires l.dimension in Scopes(d)
    requires InputSeen(s, d, Key(l.competency, l.dimension), now)
    requires t.log == Appended(s.log, Linked(e, l)) && t.active == s.active && t.catalog == s.catalog
    requires NotAhead(t, now)
    requires forall r :: r in s.runs ==> r in t.runs
    requires var key := Key(l.competency, l.dimension); key in t.states && Mentions(t.states[key].evidence, l.id)
    requires Sound(t.(log := Appended(t.log, Unlinked(l, now))))
    ensures var u := t.(log := Appended(t.log, Unlinked(l, now)));
      !Fresh(EvaluateCompetency(u, Some(l.competency), now, clock), l.competency, now)
  {
    var u, key := t.(log := Appended(t.log, Unlinked(l, now))), Key(l.competency, l.dimension);
    UnlinkingRestores(s, e, l, now, key);
    LinkingShows(s, e, l, now);
    var r :| r in s.runs && HasInput(r, s.log, d, key, now);
    assert r in u.runs && HasInput(r, u.log, d, key, now);
    assert !ScopeFresh(u, key, now);
    EvaluatedScope(u, d, key, now, clock);
    assert ActiveDefinition(EvaluateCompetency(u, Some(l.competency), now, clock), l.competency) == Some(d);
  }

  // ---- The failing history ----------------------------------------------------------------------

  function CapabilityItem(c: Id): Item { Requested(Capability, OfCompetency(c)) }

  function CompletedItem(c: Id): Item { CapabilityItem(c).(status := Completed, attempts := 1) }

  /** The item that was queued last is claimed and finished. */
  lemma {:induction false} ClaimAndFinish(w: World, c: Id, clock: nat -> int) returns (t: World)
    requires Reachable(w) && Sound(w.store) && w.queue != [] && w.queue[|w.queue| - 1] == CapabilityItem(c)
    ensures Reachable(t) && t.now == w.now && t.owners == w.owners
    ensures t.store == EvaluateCompetency(w.store, Some(c), w.now, clock)
    ensures t.queue == w.queue[|w.queue| - 1 := CompletedItem(c)]
  {
    var n := |w.queue| - 1;
    MoveReaches(w, Claim(n));
    var claimed := Moved(w, Claim(n));
    MoveReaches(claimed, Finish(n, clock));
    t := Moved(claimed, Finish(n, clock));
  }

  lemma {:induction false} Queued(w: World, rows: Log, c: Id) returns (t: World)
    requires Reachable(w) && Sound(w.store) && Sound(w.store.(log := Appended(w.store.log, rows)))
    requires Affected(w.store.log, rows) <= {c}
    ensures Reachable(t) && t.now == w.now && t.store == w.store.(log := Appended(w.store.log, rows))
    ensures t.queue == w.queue + [CapabilityItem(c)]
  {
    var m := Command(rows, [CapabilityItem(c)]);
    assert CapabilityItem(c) in [CapabilityItem(c)];
    MoveReaches(w, m);
    t := Moved(w, m);
  }

  /** A command of the competency's own, and the evaluation it asks for. */
  lemma {:induction false} CommandAndEvaluate(w: World, rows: Log, c: Id, clock: nat -> int) returns (t: World)
    requires Reachable(w) && Sound(w.store) && Sound(w.store.(log := Appended(w.store.log, rows)))
    requires Affected(w.store.log, rows) <= {c}
    ensures Reachable(t) && t.now == w.now
    ensures t.store == EvaluateCompetency(w.store.(log := Appended(w.store.log, rows)), Some(c), w.now, clock)
    ensures t.queue == w.queue + [CompletedItem(c)]
  {
    var queued := Queued(w, rows, c);
    t := ClaimAndFinish(queued, c, clock);
    assert (w.queue + [CapabilityItem(c)])[|w.queue| := CompletedItem(c)] == w.queue + [CompletedItem(c)];
  }

  lemma {:induction false} CompletedAddsNothing(queue: seq<Item>, c: Id)
    requires !Outstanding(queue, c)
    ensures !Outstanding(queue + [CompletedItem(c)], c)
  {}

  /** A command that only links, or only unlinks, the new link affects its competency and no other. */
  lemma {:induction false} OnlyItsCompetency(log: Log, e: Evidence, l: Link, now: int)
    requires NewLink(log, e, l, now)
    ensures Affected(log, Linked(e, l)) <= {l.competency}
    ensures Affected(Appended(log, Linked(e, l)), Unlinked(l, now)) <= {l.competency}
  {}

  /** `t` has the new link cached, and still has the runs of `s`. */
  ghost predicate HoldsLink(s: Store, t: Store, e: Evidence, l: Link) {
    var key := Key(l.competency, l.dimension);
    && t.log == Appended(s.log, Linked(e, l)) && t.active == s.active && t.catalog == s.catalog
    && key in t.states && Mentions(t.states[key].evidence, l.id) && forall r :: r in s.runs ==> r in t.runs
  }

  lemma {:induction false} LinkAndEvaluate(
      w: World, d: Definition, e: Evidence, l: Link, clock: nat -> int) returns (t: World)
    requires Reachable(w) && Sound(w.store) && NewLink(w.store.log, e, l, w.now)
    requires ActiveDefinition(w.store, l.competency) == Some(d) && l.dimension in Scopes(d)
    ensures Reachable(t) && t.now == w.now && t.queue == w.queue + [CompletedItem(l.competency)]
    ensures Sound(t.store) && HoldsLink(w.store, t.store, e, l)
  {
    ReachableIsBehind(w);
    ReachableMentionsLogged(w);
    LinkedIsSound(w.store, e, l, w.now);
    OnlyItsCompetency(w.store.log, e, l, w.now);
    t := CommandAndEvaluate(w, Linked(e, l), l.competency, clock);
    LinkingIsCached(w.store, w.store.(log := Appended(w.store.log, Linked(e, l))), d, e, l, w.now, clock);
  }

  lemma {:induction false} UnlinkedIsSound(s: Store, l: Link, now: int)
    requires Sound(s)
    ensures Sound(s.(log := Appended(s.log, Unlinked(l, now))))
  {
    assert s.log.evidence + [] == s.log.evidence && s.log.links + [] == s.log.links;
  }

  lemma {:induction false} UnlinkAndEvaluate(
      s: Store, w: World, d: Definition, e: Evidence, l: Link, clock: nat -> int) returns (t: World)
    requires Reachable(w) && Sound(w.store) && HoldsLink(s, w.store, e, l)
    requires Sound(s) && NewLink(s.log, e, l, w.now) && ActiveDefinition(s, l.competency) == Some(d)
    requires l.dimension in Scopes(d)
    requires InputSeen(s, d, Key(l.competency, l.dimension), w.now)
    ensures Reachable(t) && t.now == w.now && t.queue == w.queue + [CompletedItem(l.competency)]
    ensures t.store.log == Appended(w.store.log, Unlinked(l, w.now)) && l.competency in t.store.active
    ensures !Fresh(t.store, l.competency, t.now)
  {
    ReachableIsBehind(w);
    UnlinkedIsSound(w.store, l, w.now);
    OnlyItsCompetency(s.log, e, l, w.now);
    t := CommandAndEvaluate(w, Unlinked(l, w.now), l.competency, clock);
    UnlinkingIsMissed(s, w.store, d, e, l, w.now, clock);
    var unlinked := w.store.(log := Appended(w.store.log, Unlinked(l, w.now)));
    EvaluatedScope(unlinked, d, Key(l.competency, l.dimension), w.now, clock);
  }

  lemma {:induction false} StaleIsIncoherent(t: World, c: Id)
    requires c in t.store.active && !Fresh(t.store, c, t.now) && !Outstanding(t.queue, c)
    ensures !Coherent(t.store, t.queue, t.now)
  {}

  /**
   Whatever has happened before: a link made and taken back in the millisecond in which its competency was evaluated,
   each time followed by the evaluation it asks for, leaves a reachable world that is incoherent, although its facts
   are those of before.
   */
  lemma {:induction false} OneInstantLosesCoherence(
      w: World, e: Evidence, l: Link, clock: nat -> int) returns (t: World)
    requires Reachable(w) && Sound(w.store) && JustEvaluated(w.store, l.competency, w.now)
    requires !Outstanding(w.queue, l.competency)
    requires NewLink(w.store.log, e, l, w.now) && l.dimension in Scopes(ActiveDefinition(w.store, l.competency).value)
    ensures Reachable(t) && t.now == w.now
    ensures t.queue == w.queue + [CompletedItem(l.competency)] + [CompletedItem(l.competency)]
    ensures var key := Key(l.competency, l.dimension);
      ScopeFacts(t.store.log, key, w.now) == ScopeFacts(w.store.log, key, w.now)
    ensures !Coherent(t.store, t.queue, t.now)
  {
    var c, d := l.competency, ActiveDefinition(w.store, l.competency).value;
    var linked := LinkAndEvaluate(w, d, e, l, clock);
    t := UnlinkAndEvaluate(w.store, linked, d, e, l, clock);
    UnlinkingRestores(w.store, e, l, w.now, Key(c, l.dimension));
    CompletedAddsNothing(w.queue, c);
    CompletedAddsNothing(w.queue + [CompletedItem(c)], c);
    StaleIsIncoherent(t, c);
  }

  lemma {:induction false} Activated(w: World, definition: Id) returns (t: World)
    requires Initial(w.store) && w.store.active == map[] && w.store.log == Log([], [], [], [], []) && w.queue == []
    requires definition in w.store.catalog
    ensures var c := w.store.catalog[definition].competency;
      && Reachable(t) && t.now == w.now && Sound(t.store) && t.store.runs == [] && t.store.log == w.store.log
      && c in t.store.active && t.store.active[c] == definition && t.store.catalog == w.store.catalog
        && t.queue == [CapabilityItem(c)]
  {
    var c := w.store.catalog[definition].competency;
    var m := ActivateDefinition(c, definition, [CapabilityItem(c)]);
    InitialIsReachable(w);
    assert CapabilityItem(c) in [CapabilityItem(c)];
    MoveReaches(w, m);
    t := Moved(w, m);
  }

  lemma {:induction false} OnlyCompleted(c: Id)
    ensures !Outstanding([CompletedItem(c)], c)
  {}

  lemma {:induction false} FirstEvaluation(s: Store, t: Store, c: Id, now: int, clock: nat -> int)
    requires Sound(s) && NotAhead(s, now) && s.runs == [] && c in s.active
    requires t == EvaluateCompetency(s, Some(c), now, clock)
    ensures t.log == s.log && ActiveDefinition(t, c) == Some(s.catalog[s.active[c]]) && JustEvaluated(t, c, now)
  {
    UnusedIsClear(s, c, now);
    EvaluatedIsFreshIff(s, c, now, clock);
    var d := EvaluationOf(s, c, now, clock);
    InActive(s, d, now, clock, c);
  }

  lemma {:induction false} InActive(s: Store, d: Definition, now: int, clock: nat -> int, c: Id)
    requires Governs(s, d) && c in s.active
    ensures var t := EvaluateScopes(s, d, |Scopes(d)|, now, clock); c in t.active && t.log == s.log
  {}

  lemma {:induction false} FirstFinish(w: World, c: Id, clock: nat -> int) returns (t: World)
    requires Reachable(w) && Sound(w.store) && w.store.runs == [] && c in w.store.active
    requires w.queue == [CapabilityItem(c)]
    ensures Reachable(t) && t.now == w.now && t.queue == [CompletedItem(c)]
    ensures Sound(t.store) && JustEvaluated(t.store, c, t.now)
    ensures t.store.log == w.store.log && ActiveDefinition(t.store, c) == Some(w.store.catalog[w.store.active[c]])
  {
    ReachableIsBehind(w);
    assert [CapabilityItem(c)][0 := CompletedItem(c)] == [CompletedItem(c)];
    t := ClaimAndFinish(w, c, clock);
    FirstEvaluation(w.store, t.store, c, w.now, clock);
  }

  /** Such worlds are reached: activating a definition and evaluating it leaves its competency just evaluated. */
  lemma {:induction false} ActivationReachesIt(w: World, d: Definition, clock: nat -> int) returns (t: World)
    requires Initial(w.store) && w.store.active == map[] && w.store.log == Log([], [], [], [], []) && w.queue == []
    requires d.id in w.store.catalog && w.store.catalog[d.id] == d
    ensures Reachable(t) && t.now == w.now && Sound(t.store) && t.store.log == w.store.log
    ensures !Outstanding(t.queue, d.competency)
    ensures JustEvaluated(t.store, d.competency, t.now) && ActiveDefinition(t.store, d.competency) == Some(d)
  {
    var active := Activated(w, d.id);
    t := FirstFinish(active, d.competency, clock);
    OnlyCompleted(d.competency);
  }

  /** From an empty store: activate, evaluate, link, evaluate, unlink, evaluate, all in one millisecond. */
  lemma {:induction false} CoherenceCanBeLost(
      w: World, d: Definition, e: Evidence, l: Link, clock: nat -> int) returns (t: World)
    requires Initial(w.store) && w.store.active == map[] && w.store.log == Log([], [], [], [], []) && w.queue == []
    requires d.id in w.store.catalog && w.store.catalog[d.id] == d && l.competency == d.competency
    requires l.dimension == None
    requires l.evidenceId == e.id && e.createdAt == l.createdAt == w.now && e.occurredAt == None
    ensures Reachable(t) && t.now == w.now && !Coherent(t.store, t.queue, t.now)
  {
    var ready := ActivationReachesIt(w, d, clock);
    t := OneInstantLosesCoherence(ready, e, l, clock);
  }

  // ---- Evidence dated in the future -------------------------------------------------------------

  /** New rows as above, except that the evidence is dated after the instant. */
  ghost predicate FutureLink(log: Log, e: Evidence, l: Link, now: int, later: int) {
    && NewLink(log, e, l, later) && e.createdAt <= now && l.createdAt <= now
    && e.occurredAt.Some? && now < e.occurredAt.value
  }

  lemma {:induction false} FutureLinkIsNeutral(s: Store, e: Evidence, l: Link, now: int, later: int, key: Key)
    requires Sound(s) && FutureLink(s.log, e, l, now, later) && key.competency == l.competency
    ensures ActivePayload(Appended(s.log, Linked(e, l)), key, now) == ActivePayload(s.log, key, now)
  {
    var rows := Linked(e, l);
    var log := Appended(s.log, rows);
    LinkedIsSound(s, e, l, later);
    assert log.retractions == s.log.retractions && log.invalidations == s.log.invalidations;
    assert log.linkRetractions == s.log.linkRetractions;
    InactiveLinkIsNeutral(s, rows, l, now);
  }

  lemma {:induction false} FutureLinkKeepsFresh(s: Store, e: Evidence, l: Link, now: int, later: int)
    requires Sound(s) && FutureLink(s.log, e, l, now, later) && Fresh(s, l.competency, now)
    ensures Fresh(s.(log := Appended(s.log, Linked(e, l))), l.competency, now)
  {
    var u, c := s.(log := Appended(s.log, Linked(e, l))), l.competency;
    if ActiveDefinition(s, c).Some? {
      forall dimension | dimension in Scopes(ActiveDefinition(s, c).value)
        ensures ScopeFresh(u, Key(c, dimension), now)
      {
        FutureLinkIsNeutral(s, e, l, now, later, Key(c, dimension));
        assert ScopeFresh(s, Key(c, dimension), now);
      }
    }
  }

  /** When its date comes, the fact is active and the cached evidence set does not hold it. */
  lemma {:induction false} FutureComes(s: Store, t: Store, e: Evidence, l: Link, now: int, later: int)
    requires Sound(s) && FutureLink(s.log, e, l, now, later) && t.log == Appended(s.log, Linked(e, l))
    requires ActiveDefinition(t, l.competency).Some? && l.dimension in Scopes(ActiveDefinition(t, l.competency).value)
    requires Fresh(t, l.competency, now)
    ensures !Fresh(t, l.competency, later)
  {
    var key := Key(l.competency, l.dimension);
    LinkingShows(s, e, l, later);
    FutureLinkIsNeutral(s, e, l, now, later, key);
    OnlyLoggedLinksAreMentioned(s.log, key, now, l.id);
    assert ScopeFresh(t, key, now);
    assert !ScopeFresh(t, key, later);
  }

  /**
   Evidence dated in the future is logged and its work done at once; when its date comes the clock alone makes the fact
   active, and the idle competency is incoherent.
   */
  lemma {:induction false} FutureEvidenceLosesCoherence(
      w: World, e: Evidence, l: Link, later: int, clock: nat -> int) returns (t: World)
    requires Reachable(w) && Sound(w.store) && l.competency in w.store.active
    requires Fresh(w.store, l.competency, w.now) && !Outstanding(w.queue, l.competency)
    requires FutureLink(w.store.log, e, l, w.now, later)
    requires ActiveDefinition(w.store, l.competency).Some?
    requires l.dimension in Scopes(ActiveDefinition(w.store, l.competency).value)
    ensures Reachable(t) && t.now == later && !Coherent(t.store, t.queue, t.now)
    ensures t.queue == w.queue + [CompletedItem(l.competency)]
  {
    var c, s := l.competency, w.store;
    var u := s.(log := Appended(s.log, Linked(e, l)));
    ReachableIsBehind(w);
    LinkedIsSound(s, e, l, later);
    OnlyItsCompetency(s.log, e, l, later);
    FutureLinkKeepsFresh(s, e, l, w.now, later);
    var v := CommandAndEvaluate(w, Linked(e, l), c, clock);
    EvaluationStaysFresh(u, Some(c), w.now, clock, c);
    FutureEvaluated(u, c, w.now, clock);
    FutureComes(s, v.store, e, l, w.now, later);
    MoveReaches(v, Tick(later));
    t := Moved(v, Tick(later));
    CompletedAddsNothing(w.queue, c);
    StaleIsIncoherent(t, c);
  }

  lemma {:induction false} FutureEvaluated(u: Store, c: Id, now: int, clock: nat -> int)
    requires Sound(u) && NotAhead(u, now) && ActiveDefinition(u, c).Some?
    ensures var v := EvaluateCompetency(u, Some(c), now, clock);
      v.log == u.log && v.active == u.active && ActiveDefinition(v, c) == ActiveDefinition(u, c)
  {
    EvaluationKeepsLog(u, Some(c), now, clock);
  }

  // ---- A replacement on another competency ------------------------------------------------------

  /** Retracting `l` in favour of the new link `r` of the same evidence. */
  function Replaced(l: Link, r: Link, now: int): Log { Log([], [r], [], [], [LinkRetraction(l.id, now)]) }

  ghost predicate Replaces(log: Log, l: Link, r: Link, now: int) {
    && l in log.links && (forall m :: m in log.links && m.id == l.id ==> m == l)
      && (forall m :: m in log.links ==> m.id != r.id)
    && r.evidenceId == l.evidenceId && r.dimension == None && r.createdAt <= now
    && forall x :: x in log.linkRetractions ==> x.linkId != r.id
  }

  lemma {:induction false} ReplacementKeepsActive(s: Store, l: Link, r: Link, now: int, f: Fact)
    requires Replaces(s.log, l, r, now) && f.link in s.log.links && f.link.competency != l.competency
    ensures Active(Appended(s.log, Replaced(l, r, now)), f, now) == Active(s.log, f, now)
  {
    var log := Appended(s.log, Replaced(l, r, now));
    assert log.retractions == s.log.retractions && log.invalidations == s.log.invalidations;
    assert LinkWithdrawn(log, f.link.id, now) == LinkWithdrawn(s.log, f.link.id, now);
  }

  /** The replacement of withdrawn evidence is not seen. */
  lemma {:induction false} WithdrawnReplacementIsNeutral(s: Store, l: Link, r: Link, now: int)
    requires Sound(s) && Replaces(s.log, l, r, now) && r.competency != l.competency
    requires EvidenceWithdrawn(s.log, l.evidenceId, now)
    ensures FactsAt(Appended(s.log, Replaced(l, r, now)), r.competency, now) == FactsAt(s.log, r.competency, now)
  {
    var log := Appended(s.log, Replaced(l, r, now));
    assert log.retractions == s.log.retractions && log.invalidations == s.log.invalidations;
    forall f: Fact | f.link in s.log.links && f.link.competency == r.competency && f.link.evidenceId == f.evidence.id
      ensures Active(log, f, now) == Active(s.log, f, now)
    {
      ReplacementKeepsActive(s, l, r, now, f);
    }
    InactiveLinkIsNeutral(s, Replaced(l, r, now), r, now);
  }

  /** The replacement of evidence in force is. */
  lemma {:induction false} ReplacementShows(s: Store, l: Link, r: Link, now: int)
    requires Sound(s) && NoFuture(s.log, now) && Replaces(s.log, l, r, now)
    requires !EvidenceWithdrawn(s.log, l.evidenceId, now)
    ensures Mentions(ActivePayload(Appended(s.log, Replaced(l, r, now)), Key(r.competency, None), now), r.id)
    ensures !Mentions(ActivePayload(s.log, Key(r.competency, None), now), r.id)
  {
    var log := Appended(s.log, Replaced(l, r, now));
    assert log.evidence == s.log.evidence && r in log.links;
    assert log.retractions == s.log.retractions && log.invalidations == s.log.invalidations;
    assert RowOf(log.evidence, r, r.competency, now).Some?;
    ActiveLinkIsMentioned(log, r, now);
    OnlyLoggedLinksAreMentioned(s.log, Key(r.competency, None), now, r.id);
  }

  lemma {:induction false} ReplacementIsFreshIff(s: Store, l: Link, r: Link, now: int)
    requires Sound(s) && NoFuture(s.log, now) && Replaces(s.log, l, r, now) && r.competency != l.competency
    requires r.competency in s.active && Fresh(s, r.competency, now)
    ensures Fresh(s.(log := Appended(s.log, Replaced(l, r, now))), r.competency, now) <==>
      EvidenceWithdrawn(s.log, l.evidenceId, now)
  {
    var t, c := s.(log := Appended(s.log, Replaced(l, r, now))), r.competency;
    var d := ActiveDefinition(s, c).value;
    assert ActiveDefinition(t, c) == Some(d) && AllFresh(s, d, c, now);
    if EvidenceWithdrawn(s.log, l.evidenceId, now) {
      WithdrawnReplacementIsNeutral(s, l, r, now);
      forall dimension | dimension in Scopes(d) ensures ScopeFresh(t, Key(c, dimension), now) {
        assert ScopeFresh(s, Key(c, dimension), now);
      }
    } else {
      ReplacementShows(s, l, r, now);
      assert None in Scopes(d) && ScopeFresh(s, Key(c, None), now);
      assert !ScopeFresh(t, Key(c, None), now);
    }
  }

  lemma {:induction false} ReplacementAffects(s: Store, l: Link, r: Link, now: int)
    requires Replaces(s.log, l, r, now)
    ensures Affected(s.log, Replaced(l, r, now)) <= {l.competency, r.competency}
  {}

  /** Every competency but the replacement's is served by the work queued for the retracted link. */
  lemma {:induction false} OthersAreServed(
      s: Store, queue: seq<Item>, queue': seq<Item>, l: Link, r: Link, now: int, c: Id)
    requires Sound(s) && Replaces(s.log, l, r, now) && queue <= queue'
    requires Requested(Capability, OfCompetency(l.competency)) in queue'
    requires c != r.competency || c == l.competency || Outstanding(queue, c)
    requires Outstanding(queue, c) || Fresh(s, c, now)
    ensures Outstanding(queue', c) || Fresh(s.(log := Appended(s.log, Replaced(l, r, now))), c, now)
  {
    ReplacementAffects(s, l, r, now);
    if Outstanding(queue, c) {
      StillOutstanding(queue, queue', c);
    } else if c != l.competency {
      FreshnessCarries(s, Replaced(l, r, now), c, now);
    }
  }

  /**
   A link retracted in favour of a replacement, with work queued for the retracted link only: the cache stays coherent
   exactly when the replacement stays on the competency, or its competency is inactive or has work anyway, or the
   evidence is withdrawn.
   */
  lemma {:induction false} ReplacementKeepsCoherenceIff(
      s: Store, queue: seq<Item>, queue': seq<Item>, l: Link, r: Link, now: int)
    requires Sound(s) && NoFuture(s.log, now) && Coherent(s, queue, now) && Replaces(s.log, l, r, now)
    requires queue <= queue' && Requested(Capability, OfCompetency(l.competency)) in queue'
    requires Outstanding(queue', r.competency) ==> r.competency == l.competency || Outstanding(queue, r.competency)
    ensures Coherent(s.(log := Appended(s.log, Replaced(l, r, now))), queue', now) <==>
      (|| r.competency == l.competency || r.competency !in s.active || Outstanding(queue, r.competency)
       || EvidenceWithdrawn(s.log, l.evidenceId, now))
  {
    var t, c := s.(log := Appended(s.log, Replaced(l, r, now))), r.competency;
    forall k | k in s.active && (k != c || c == l.competency || Outstanding(queue, c))
      ensures Outstanding(queue', k) || Fresh(t, k, now) {
      OthersAreServed(s, queue, queue', l, r, now, k);
    }
    if c in s.active && c != l.competency && !Outstanding(queue, c) { ReplacementIsFreshIff(s, l, r, now); }
  }
}

/**
 The capability engine as an object: evidence commands append to the log and queue work, evaluation appends
 runs and events and refreshes projections, and a drain claims queue items one by one.
 Each method is proved against the value-level step it performs.
 */
module CapabilityStore {
  import opened Base
  import opened Model
  import opened ActiveFacts
  import opened Levels
  import opened Downgrade
  import opened Evaluation
  import opened HistoryRuns
  import opened Freshness
  import opened Coherence
  import opened CoherenceLost
  import opened ContributionLinks
  import opened Activations

  function SubjectsOf(links: seq<Link>): set<(Id, Option<Id>)> {
    set l | l in links :: (l.competency, l.criterionIdentity)
  }

  function RequestsOf(subject: (Id, Option<Id>)): seq<Item> {
    (if subject.1.Some? then [Requested(CriterionEvaluation, OfCriterion(subject.1.value))] else [])
    + [Requested(Capability, OfCompetency(subject.0)), Requested(Kind.Review, OfCompetency(subject.0)),
       Requested(Analysis, OfCompetency(subject.0))]
  }

  function LinksOfEvidence(links: seq<Link>, id: Id): (r: seq<Link>)
    ensures forall l :: l in r <==> l in links && l.evidenceId == id
  {
    Filter(links, (l: Link) => l.evidenceId == id)
  }

  function LinkById(links: seq<Link>, id: Id): (r: Option<Link>)
    ensures r.Some? ==> r.value in links && r.value.id == id
    ensures r.None? ==> forall l :: l in links ==> l.id != id
  {
    if links == [] then None
    else if links[|links| - 1].id == id then Some(links[|links| - 1])
    else LinkById(links[..|links| - 1], id)
  }

  /** The log after the first `n` pieces of evidence have been retracted. */
  function EachRetracted(log: Log, ids: seq<Id>, n: nat, now: int): Log
    requires n <= |ids|
  {
    if n == 0 then log else Appended(EachRetracted(log, ids, n - 1, now),
      Log([], [], [Retraction(ids[n - 1], now)], [], []))
  }

  /** What a change of definition asks for. */
  function DefinitionRequests(c: Id): seq<Item> {
    [Requested(CriterionEvaluation, OfCompetency(c)), Requested(Capability, OfCompetency(c)),
     Requested(Kind.Review, OfCompetency(c)), Requested(Analysis, OfCompetency(c))]
  }

  /** A full rebuild asks for the item on behalf of one of the competencies. */
  ghost predicate RebuildAsks(competencies: set<Id>, x: Item) {
    exists c :: c in competencies && x in DefinitionRequests(c)[..3]
  }

  lemma {:induction false} RebuildAsksMore(done: set<Id>, c: Id, x: Item)
    ensures RebuildAsks(done + {c}, x) <==> RebuildAsks(done, x) || x in DefinitionRequests(c)[..3]
  {
    if RebuildAsks(done + {c}, x) {
      var d :| d in done + {c} && x in DefinitionRequests(d)[..3];
      assert d in done ==> RebuildAsks(done, x);
    }
    if RebuildAsks(done, x) {
      var d :| d in done && x in DefinitionRequests(d)[..3];
      assert d in done + {c};
    }
  }

  lemma {:induction false} RebuiltIsCoherent(s: Store, before: seq<Item>, queue: seq<Item>, now: int)
    requires before <= queue && Queues(queue[|before|..], s.active.Keys)
    ensures Coherent(s, queue, now)
  {
    assert queue == before + queue[|before|..];
    forall c | c in s.active ensures Outstanding(queue, c) {
      assert Requested(Capability, OfCompetency(c)) in queue;
    }
  }

  /** The evidence of a session that is neither retracted nor invalidated. */
  function ActiveOfSession(
      evidence: seq<Evidence>, retractions: seq<Retraction>, invalidations: seq<Invalidation>, session: string)
    : (r: seq<Id>)
    ensures forall id :: id in r <==>
      exists e :: e in evidence && e.id == id && IsActiveOf(e, retractions, invalidations, session)
    ensures r == [] <==> forall e :: e in evidence ==> !IsActiveOf(e, retractions, invalidations, session)
  {
    if evidence == [] then []
    else
      var e := evidence[|evidence| - 1];
      assert evidence == evidence[..|evidence| - 1] + [e];
      ActiveOfSession(evidence[..|evidence| - 1], retractions, invalidations, session)
        + (if IsActiveOf(e, retractions, invalidations, session) then [e.id] else [])
  }

  predicate IsActiveOf(e: Evidence, retractions: seq<Retraction>, invalidations: seq<Invalidation>, session: string) {
    && e.sourceType == "learning_session" && e.sourceId == session
    && (forall r :: r in retractions ==> r.evidenceId != e.id)
    && forall i :: i in invalidations ==> i.evidenceId != e.id
  }

  lemma {:induction false} EachIsRetracted(log: Log, ids: seq<Id>, n: nat, now: int)
    requires n <= |ids|
    ensures var after := EachRetracted(log, ids, n, now);
      && after.evidence == log.evidence && after.invalidations == log.invalidations
      && (forall r :: r in log.retractions ==> r in after.retractions)
      && forall i :: 0 <= i < n ==> Retraction(ids[i], now) in after.retractions
  {
    if n > 0 { EachIsRetracted(log, ids, n - 1, now); }
  }

  lemma {:induction false} FewerAreActive(
      e: Evidence, before: seq<Retraction>, after: seq<Retraction>, invalidations: seq<Invalidation>, session: string)
    requires (forall r :: r in before ==> r in after) && IsActiveOf(e, after, invalidations, session)
    ensures IsActiveOf(e, before, invalidations, session)
  {}

  lemma {:induction false} NoneLeft(log: Log, session: string, now: int)
    ensures var ids := ActiveOfSession(log.evidence, log.retractions, log.invalidations, session);
      var after := EachRetracted(log, ids, |ids|, now);
      ActiveOfSession(after.evidence, after.retractions, after.invalidations, session) == []
  {
    var ids := ActiveOfSession(log.evidence, log.retractions, log.invalidations, session);
    var after := EachRetracted(log, ids, |ids|, now);
    EachIsRetracted(log, ids, |ids|, now);
    forall e | e in log.evidence ensures !IsActiveOf(e, after.retractions, after.invalidations, session) {
      if e.id in ids {
        var i :| 0 <= i < |ids| && ids[i] == e.id;
        assert Retraction(ids[i], now) in after.retractions;
      } else if IsActiveOf(e, after.retractions, after.invalidations, session) {
        FewerAreActive(e, log.retractions, after.retractions, log.invalidations, session);
      }
    }
  }

  datatype LinkReply = Linked(id: Id) | Conflict | Exists | NoEvidence

  /** Apart from its identity and its time the link says the same. */
  predicate SamePayload(l: Link, m: Link) {
    l.(id := m.id, createdAt := m.createdAt, contribution := m.contribution) == m
  }

  /** A link that is not retracted says the same of the same evidence. */
  predicate LinkExists(links: seq<Link>, retractions: seq<LinkRetraction>, l: Link) {
    exists m ::
      && m in links && l.(id := m.id, createdAt := m.createdAt) == m
      && forall x :: x in retractions ==> x.linkId != m.id
  }

  function PendingIds(queue: seq<Item>, n: nat): (r: seq<nat>)
    requires n <= |queue|
    ensures forall i: nat :: i in r <==> i < n && queue[i].status == Pending && Drainable(queue[i])
    ensures forall k :: 0 <= k < |r| ==> r[k] < n
    ensures forall a, b :: 0 <= a < b < |r| ==> r[a] < r[b]
  {
    if n == 0 then []
    else
      var rest := PendingIds(queue, n - 1);
      assert forall a :: 0 <= a < |rest| ==> rest[a] in rest;
      rest + (if queue[n - 1].status == Pending && Drainable(queue[n - 1]) then [n - 1] else [])
  }

  function RecoveredItem(item: Item): Item {
    if item.status == Running && Drainable(item) then item.(status := Pending) else item
  }

  /** The queue a drain starts from. */
  function StartOf(queue: seq<Item>, recover: bool): (r: seq<Item>)
    ensures |r| == |queue|
    ensures forall i :: 0 <= i < |r| ==> r[i] == if recover then RecoveredItem(queue[i]) else queue[i]
  {
    seq(|queue|, i requires 0 <= i < |queue| => if recover then RecoveredItem(queue[i]) else queue[i])
  }

  /** How many of the first `n` attempts did not fail. */
  function Succeeded(ids: seq<nat>, n: nat, fails: nat -> bool): nat
    requires n <= |ids|
  {
    if n == 0 then 0 else Succeeded(ids, n - 1, fails) + (if fails(ids[n - 1]) then 0 else 1)
  }

  /** What one drain does to one item that was pending when it started. */
  function DrainedItem(item: Item, fails: bool, maxAttempts: nat): Item {
    var claimed := item.(status := Running, attempts := item.attempts + 1);
    claimed.(status := if fails then AfterFailure(claimed, maxAttempts) else Completed)
  }

  /** The queue after the first `n` attempts of a drain. */
  function DrainedQueue(start: seq<Item>, ids: seq<nat>, n: nat, fails: nat -> bool, maxAttempts: nat): (r: seq<Item>)
    requires n <= |ids| && forall k :: 0 <= k < |ids| ==> ids[k] < |start|
    ensures |r| == |start|
  {
    if n == 0 then start
    else
      var i := ids[n - 1];
      DrainedQueue(start, ids, n - 1, fails, maxAttempts)[i := DrainedItem(start[i], fails(i), maxAttempts)]
  }

  /** Each claimed item is attempted once, in its turn; every other item is left as it was. */
  lemma {:induction false} DrainAttemptsOnce(
      start: seq<Item>, ids: seq<nat>, n: nat, fails: nat -> bool, maxAttempts: nat, i: nat)
    requires n <= |ids| && i < |start| && forall k :: 0 <= k < |ids| ==> ids[k] < |start|
    requires forall a, b :: 0 <= a < b < |ids| ==> ids[a] < ids[b]
    ensures DrainedQueue(start, ids, n, fails, maxAttempts)[i]
      == if exists k :: 0 <= k < n && ids[k] == i then DrainedItem(start[i], fails(i), maxAttempts) else start[i]
  {
    if n > 0 {
      DrainAttemptsOnce(start, ids, n - 1, fails, maxAttempts, i);
      assert i == ids[n - 1] ==> exists k :: 0 <= k < n && ids[k] == i;
    }
  }

  /** What finishing or failing one item does to the store. */
  function AfterAttempt(s: Store, competency: Option<Id>, fails: bool, now: int, clock: nat -> int): (t: Store)
    requires Sound(s)
    ensures Sound(t)
  {
    if fails then s else EvaluateCompetency(s, competency, now, clock)
  }

  /**
   What the first `n` attempts of a drain do to the store: the competencies of those that do not fail are evaluated in
   turn.
   */
  function DrainedStore(
      s: Store, queue: seq<Item>, owners: map<Id, Id>, ids: seq<nat>, n: nat, fails: nat -> bool,
      times: nat -> (int, nat -> int)): (t: Store)
    requires Sound(s) && n <= |ids| && forall k :: 0 <= k < |ids| ==> ids[k] < |queue|
    ensures Sound(t)
  {
    if n == 0 then s
    else
      var i := ids[n - 1];
      AfterAttempt(DrainedStore(s, queue, owners, ids, n - 1, fails, times),
        ItemCompetency(queue[i], owners), fails(i), times(i).0, times(i).1)
  }

  /** The dictionary a pass over the events leaves: the event with the highest sequence of every scope. */
  function LatestMap(events: seq<Event>): (m: map<Key, Event>)
    ensures m.Keys == HistoryKeys(events)
    ensures forall key :: key in m ==> m[key] in events
  {
    if events == [] then map[]
    else
      var m, e := LatestMap(events[..|events| - 1]), events[|events| - 1];
      assert events == events[..|events| - 1] + [e];
      if e.key !in m || m[e.key].sequence <= e.sequence then m[e.key := e] else m
  }

  /** The scopes with history whose competency is active. */
  function SeedKeys(latest: map<Key, Event>, active: map<Id, Id>): set<Key> {
    set key | key in latest && key.competency in active
  }

  /** Every seeded scope's latest event has its run. */
  ghost predicate RunsPresent(latest: map<Key, Event>, keys: set<Key>, runs: seq<Run>) {
    forall key :: key in keys && key in latest ==> latest[key].run < |runs|
  }

  ghost predicate IsSeeded(
      states: map<Key, Projection>, latest: map<Key, Event>, keys: set<Key>, runs: seq<Run>, evidence: seq<Evidence>) {
    && states.Keys == keys && keys <= latest.Keys && RunsPresent(latest, keys, runs)
    && forall key :: key in keys ==> states[key] == Restored(runs, evidence, latest[key])
  }

  class Engine {
    const catalog: map<Id, Definition>
    const owners: map<Id, Id>
    var active: map<Id, Id>
    var evidence: seq<Evidence>
    var links: seq<Link>
    var linkKeys: map<(Id, Id), Link>
    var retractions: seq<Retraction>
    var invalidations: seq<Invalidation>
    var linkRetractions: seq<LinkRetraction>
    var runs: seq<Run>
    var events: seq<Event>
    var states: map<Key, Projection>
    var queue: seq<Item>
    var activationKeys: map<Id, (Id, Id)>

    function TheLog(): Log
      reads this
    {
      Log(evidence, links, retractions, invalidations, linkRetractions)
    }

    function Contents(): Store
      reads this
    {
      Store(catalog, active, TheLog(), runs, events, states)
    }

    constructor (catalog: map<Id, Definition>, owners: map<Id, Id>)
      ensures Contents() == Store(catalog, map[], Log([], [], [], [], []), [], [], map[])
      ensures this.owners == owners && queue == [] && linkKeys == map[] && activationKeys == map[]
    {
      this.catalog, this.owners := catalog, owners;
      active, evidence, links, retractions, invalidations, linkRetractions := map[], [], [], [], [], [];
      runs, events, states, queue, linkKeys, activationKeys := [], [], map[], [], map[], map[];
    }

    // ---- Evidence commands ----------------------------------------------------------------------

    /** One request per kind and subject, over the distinct subjects of the links. */
    method QueueInvalidations(changed: seq<Link>)
      modifies this`queue
      ensures old(queue) <= queue
      ensures forall x :: x in queue[|old(queue)|..] <==> exists l :: l in changed && x in RequestsFor(l)
      ensures forall l :: l in changed ==> Requested(Capability, OfCompetency(l.competency)) in queue
    {
      ghost var before := queue;
      var subjects := SubjectsOf(changed);
      ghost var done: set<(Id, Option<Id>)> := {};
      while subjects != {}
        invariant before <= queue
        invariant subjects + done == SubjectsOf(changed)
        invariant forall x :: x in queue[|before|..] <==> exists s :: s in done && x in RequestsOf(s)
        decreases subjects
      {
        var subject :| subject in subjects;
        subjects := subjects - {subject};
        var requests := RequestsOf(subject);
        ghost var added := queue[|before|..];
        queue := queue + requests;
        assert queue[|before|..] == added + requests;
        done := done + {subject};
      }
      forall x ensures x in queue[|before|..] <==> exists l :: l in changed && x in RequestsFor(l) {
        if x in queue[|before|..] {
          var s :| s in SubjectsOf(changed) && x in RequestsOf(s);
          var l :| l in changed && (l.competency, l.criterionIdentity) == s;
          assert x in RequestsFor(l);
        }
        if exists l :: l in changed && x in RequestsFor(l) {
          var l :| l in changed && x in RequestsFor(l);
          assert (l.competency, l.criterionIdentity) in SubjectsOf(changed);
          assert x in RequestsOf((l.competency, l.criterionIdentity));
        }
      }
      forall l | l in changed ensures Requested(Capability, OfCompetency(l.competency)) in queue {
        assert Requested(Capability, OfCompetency(l.competency)) in RequestsFor(l);
        assert Requested(Capability, OfCompetency(l.competency)) in queue[|before|..];
      }
    }

    /** A new evidence row with its links; new ids are fresh. */
    method CreateEvidence(e: Evidence, added: seq<Link>, now: int)
      requires Sound(Contents()) && Sound(Contents().(log := Appended(TheLog(), Log([e], added, [], [], []))))
      modifies this`evidence, this`links, this`queue
      ensures Contents() == old(Contents()).(log := Appended(old(TheLog()), Log([e], added, [], [], [])))
      ensures old(Coherent(Contents(), queue, now)) ==> Coherent(Contents(), queue, now)
    {
      ghost var s, q := Contents(), queue;
      evidence := evidence + [e];
      for i := 0 to |added|
        invariant links == s.log.links + added[..i] && evidence == s.log.evidence + [e] && queue == q
      {
        assert added[..i + 1] == added[..i] + [added[i]];
        links := links + [added[i]];
      }
      assert added[..|added|] == added;
      QueueInvalidations(added);
      ghost var rows := Log([e], added, [], [], []);
      assert TheLog() == Appended(s.log, rows);
      CommandCoherence(s, q, queue, rows, added, now);
    }

    /** A retraction row, and work for every competency the evidence is linked to. */
    method AppendRetraction(id: Id, now: int)
      requires Sound(Contents())
      modifies this`retractions, this`queue
      ensures Contents() == old(Contents()).(log := Appended(old(TheLog()), Log([], [], [Retraction(id, now)], [], [])))
      ensures old(Coherent(Contents(), queue, now)) ==> Coherent(Contents(), queue, now)
    {
      ghost var s, q := Contents(), queue;
      retractions := retractions + [Retraction(id, now)];
      QueueInvalidations(LinksOfEvidence(links, id));
      ghost var rows := Log([], [], [Retraction(id, now)], [], []);
      assert TheLog() == Appended(s.log, rows);
      CommandCoherence(s, q, queue, rows, LinksOfEvidence(links, id), now);
    }

    /** Unknown evidence is reported; a second retraction changes nothing. */
    method RetractEvidence(id: Id, now: int) returns (known: bool)
      requires Sound(Contents())
      modifies this`retractions, this`queue
      ensures known <==> EvidenceById(old(evidence), id).Some?
      ensures var again := exists r :: r in old(retractions) && r.evidenceId == id;
        if known && !again then
          Contents() == old(Contents()).(log := Appended(old(TheLog()), Log([], [], [Retraction(id, now)], [], [])))
        else Contents() == old(Contents()) && queue == old(queue)
      ensures old(Coherent(Contents(), queue, now)) ==> Coherent(Contents(), queue, now)
    {
      known := EvidenceById(evidence, id).Some?;
      if known && !(exists r :: r in retractions && r.evidenceId == id) {
        AppendRetraction(id, now);
      }
    }

    method AppendInvalidation(id: Id, now: int)
      requires Sound(Contents())
      modifies this`invalidations, this`queue
      ensures Contents() == old(Contents()).(log :=
        Appended(old(TheLog()), Log([], [], [], [Invalidation(id, now)], [])))
      ensures old(Coherent(Contents(), queue, now)) ==> Coherent(Contents(), queue, now)
    {
      ghost var s, q := Contents(), queue;
      invalidations := invalidations + [Invalidation(id, now)];
      QueueInvalidations(LinksOfEvidence(links, id));
      ghost var rows := Log([], [], [], [Invalidation(id, now)], []);
      assert TheLog() == Appended(s.log, rows);
      CommandCoherence(s, q, queue, rows, LinksOfEvidence(links, id), now);
    }

    method InvalidateEvidence(id: Id, now: int) returns (known: bool)
      requires Sound(Contents())
      modifies this`invalidations, this`queue
      ensures known <==> EvidenceById(old(evidence), id).Some?
      ensures var again := exists i :: i in old(invalidations) && i.evidenceId == id;
        if known && !again then
          Contents() == old(Contents()).(log := Appended(old(TheLog()), Log([], [], [], [Invalidation(id, now)], [])))
        else Contents() == old(Contents()) && queue == old(queue)
      ensures old(Coherent(Contents(), queue, now)) ==> Coherent(Contents(), queue, now)
    {
      known := EvidenceById(evidence, id).Some?;
      if known && !(exists i :: i in invalidations && i.evidenceId == id) {
        AppendInvalidation(id, now);
      }
    }

    /**
     A link under an idempotency key: unknown evidence is reported, a key already used for the evidence returns its link
     or a conflict, an active link that says the same is reported, and all these change nothing; otherwise the link is
     appended.
     */
    method LinkEvidence(key: Id, l: Link, now: int) returns (reply: LinkReply)
      requires Sound(Contents())
      modifies this`links, this`linkKeys, this`queue
      ensures reply == (
        if EvidenceById(old(evidence), l.evidenceId).None? then NoEvidence
        else if (l.evidenceId, key) in old(linkKeys) then
          if SamePayload(l, old(linkKeys)[(l.evidenceId, key)]) then Linked(old(linkKeys)[(l.evidenceId, key)].id)
          else Conflict
        else if LinkExists(old(links), old(linkRetractions), l) then Exists
        else Linked(l.id))
      ensures if EvidenceById(old(evidence), l.evidenceId).None? || (l.evidenceId, key) in old(linkKeys)
          || LinkExists(old(links), old(linkRetractions), l)
        then Contents() == old(Contents()) && queue == old(queue) && linkKeys == old(linkKeys)
        else
          && linkKeys == old(linkKeys)[(l.evidenceId, key) := l]
          && Contents() == old(Contents()).(log := Appended(old(TheLog()), Log([], [l], [], [], [])))
      ensures old(Coherent(Contents(), queue, now)) ==> Coherent(Contents(), queue, now)
    {
      if EvidenceById(evidence, l.evidenceId).None? {
        return NoEvidence;
      }
      var used := (l.evidenceId, key);
      if used in linkKeys {
        return if SamePayload(l, linkKeys[used]) then Linked(linkKeys[used].id) else Conflict;
      }
      if LinkExists(links, linkRetractions, l) {
        return Exists;
      }
      assert evidence + [] == evidence;
      AppendLink(l, now);
      linkKeys := linkKeys[used := l];
      reply := Linked(l.id);
    }

    /** A new link of evidence that is already there. */
    method AppendLink(l: Link, now: int)
      requires Sound(Contents()) && Sound(Contents().(log := Appended(TheLog(), Log([], [l], [], [], []))))
      modifies this`links, this`queue
      ensures Contents() == old(Contents()).(log := Appended(old(TheLog()), Log([], [l], [], [], [])))
      ensures old(Coherent(Contents(), queue, now)) ==> Coherent(Contents(), queue, now)
    {
      ghost var s, q := Contents(), queue;
      links := links + [l];
      QueueInvalidations([l]);
      ghost var rows := Log([], [l], [], [], []);
      assert TheLog() == Appended(s.log, rows);
      CommandCoherence(s, q, queue, rows, [l], now);
    }

    /** A link retraction row, and work for the competency of the link. */
    method AppendLinkRetraction(l: Link, now: int)
      requires Sound(Contents()) && l in links && DistinctLinks(links)
      modifies this`linkRetractions, this`queue
      ensures Contents() == old(Contents()).(log := Appended(old(TheLog()), Unlinked(l, now)))
      ensures old(Coherent(Contents(), queue, now)) ==> Coherent(Contents(), queue, now)
    {
      ghost var s, q := Contents(), queue;
      linkRetractions := linkRetractions + [LinkRetraction(l.id, now)];
      QueueInvalidations([l]);
      ghost var rows := Unlinked(l, now);
      assert TheLog() == Appended(s.log, rows);
      CommandCoherence(s, q, queue, rows, [l], now);
    }

    /** Unknown links are reported; a second retraction changes nothing. */
    method RetractLink(id: Id, now: int) returns (known: bool)
      requires Sound(Contents()) && DistinctLinks(links)
      modifies this`linkRetractions, this`queue
      ensures known <==> LinkById(old(links), id).Some?
      ensures var again := exists r :: r in old(linkRetractions) && r.linkId == id;
        if known && !again then
          Contents() == old(Contents()).(log := Appended(old(TheLog()), Unlinked(LinkById(old(links), id).value, now)))
        else Contents() == old(Contents()) && queue == old(queue)
      ensures old(Coherent(Contents(), queue, now)) ==> Coherent(Contents(), queue, now)
    {
      known := LinkById(links, id).Some?;
      if known && !(exists r :: r in linkRetractions && r.linkId == id) {
        AppendLinkRetraction(LinkById(links, id).value, now);
      }
    }

    /**
     One link of a corrected contribution: a link for the replacement unless there is one, the retraction, and work for
     the retracted link.  A coherent cache stays coherent exactly when the replacement is served.
     */
    method ReplaceLink(l: Link, replacement: Option<Contribution>, id: Id, now: int)
      requires Sound(Contents()) && l in links && DistinctLinks(links)
      requires (forall m :: m in links ==> m.id != id) && forall x :: x in linkRetractions ==> x.linkId != id
      modifies this`links, this`linkRetractions, this`queue
      ensures Contents() == old(Contents()).(log :=
        Appended(old(TheLog()), ReplacementRows(old(links), l, replacement, id, now)))
      ensures old(queue) <= queue && forall x :: x in queue[|old(queue)|..] <==> x in RequestsFor(l)
      ensures old(Coherent(Contents(), queue, now) && NoFuture(TheLog(), now)) ==>
        (Coherent(Contents(), queue, now) <==>
          var r := ReplacementLink(old(links), l, replacement, id, now);
          r.Some? ==> ReplacementIsServed(old(Contents()), old(queue), l, r.value, now))
    {
      ghost var s, q := Contents(), queue;
      var r := ReplacementLink(links, l, replacement, id, now);
      if r.Some? {
        links := links + [r.value];
      }
      linkRetractions := linkRetractions + [LinkRetraction(l.id, now)];
      QueueInvalidations([l]);
      assert TheLog() == Appended(s.log, ReplacementRows(s.log.links, l, replacement, id, now));
      if Coherent(s, q, now) && NoFuture(s.log, now) { ReplacementOutcome(s, q, queue, l, replacement, id, now); }
    }

    /** The engine after `i` links, from store `s` and queue `q`; identifiers from `i` on are unused. */
    ghost predicate ReplacedTo(
        s: Store, q: seq<Item>, live: seq<Link>, i: nat, replacement: Option<Contribution>, ids: nat -> Id, now: int)
      requires i <= |live|
      reads this
    {
      && Contents() == s.(log := LinksReplaced(s.log, live, i, replacement, ids, now))
      && Ready(Contents(), live, ids, i) && AsksFor(live, i, q, queue)
    }

    method ReplaceNext(
        ghost s: Store, ghost q: seq<Item>, live: seq<Link>, i: nat, replacement: Option<Contribution>, ids: nat -> Id,
        now: int)
      requires i < |live| && ReplacedTo(s, q, live, i, replacement, ids, now) && Injective(ids)
      modifies this`links, this`linkRetractions, this`queue
      ensures ReplacedTo(s, q, live, i + 1, replacement, ids, now)
    {
      ghost var before := queue;
      assert forall m :: m in links ==> m.id != ids(i);
      ReplacementRowsFit(Contents(), live, replacement, ids, i, now);
      ReplaceLink(live[i], replacement, ids(i), now);
      assert Requested(Capability, OfCompetency(live[i].competency)) in RequestsFor(live[i]);
      AsksForNext(live, i, q, before, queue);
    }

    /**
     Every live link of the contribution is retracted in turn; `ids` are unused identifiers for new links.  A coherent
     cache stays coherent exactly when the replacement is served.
     */
    method RetractContributionLinks(contribution: Id, replacement: Option<Contribution>, ids: nat -> Id, now: int)
      requires Sound(Contents()) && DistinctLinks(links) && UnusedFrom(TheLog(), ids, 0) && Injective(ids)
      modifies this`links, this`linkRetractions, this`queue
      ensures var live := LiveLinksOf(old(links), old(linkRetractions), contribution);
        && Contents() == old(Contents()).(log := LinksReplaced(old(TheLog()), live, |live|, replacement, ids, now))
        && AsksFor(live, |live|, old(queue), queue)
        && (old(Coherent(Contents(), queue, now) && NoFuture(TheLog(), now)) ==>
             (Coherent(Contents(), queue, now) <==>
               ContributionIsServed(old(Contents()), old(queue), live, replacement, now)))
    {
      ghost var s, q := Contents(), queue;
      var live := LiveLinksOf(links, linkRetractions, contribution);
      ReplaceAll(live, replacement, ids, now);
      if Coherent(s, q, now) && NoFuture(s.log, now) {
        ContributionOutcome(s, q, queue, live, replacement, ids, now);
      }
    }

    method ReplaceAll(live: seq<Link>, replacement: Option<Contribution>, ids: nat -> Id, now: int)
      requires Ready(Contents(), live, ids, 0) && Injective(ids)
      modifies this`links, this`linkRetractions, this`queue
      ensures Contents() == old(Contents()).(log := LinksReplaced(old(TheLog()), live, |live|, replacement, ids, now))
      ensures AsksFor(live, |live|, old(queue), queue)
    {
      ghost var s, q := Contents(), queue;
      for i := 0 to |live|
        invariant ReplacedTo(s, q, live, i, replacement, ids, now)
      {
        ReplaceNext(s, q, live, i, replacement, ids, now);
      }
    }

    // ---- Commands that end evidence in favour of other evidence ---------------------------------

    /** New evidence supersedes the prior one: both changes queue the work of their links. */
    method SupersedeEvidence(prior: Id, e: Evidence, added: seq<Link>, now: int)
      requires Sound(Contents()) && Sound(Contents().(log := Appended(TheLog(), Log([e], added, [], [], []))))
      modifies this`evidence, this`links, this`retractions, this`queue
      ensures Contents() == old(Contents()).(log :=
        Appended(Appended(old(TheLog()), Log([e], added, [], [], [])), Log([], [], [Retraction(prior, now)], [], [])))
      ensures old(Coherent(Contents(), queue, now)) ==> Coherent(Contents(), queue, now)
    {
      CreateEvidence(e, added, now);
      AppendRetraction(prior, now);
    }

    /** A session's active evidence is retracted, one fact at a time, and none is left. */
    method RetractSessionEvidence(session: string, now: int)
      requires Sound(Contents())
      modifies this`retractions, this`queue
      ensures var active := ActiveOfSession(old(evidence), old(retractions), old(invalidations), session);
        Contents() == old(Contents()).(log := EachRetracted(old(TheLog()), active, |active|, now))
      ensures ActiveOfSession(evidence, retractions, invalidations, session) == []
      ensures old(Coherent(Contents(), queue, now)) ==> Coherent(Contents(), queue, now)
    {
      ghost var log := TheLog();
      var active := ActiveOfSession(evidence, retractions, invalidations, session);
      RetractEach(active, now);
      NoneLeft(log, session, now);
    }

    method RetractEach(active: seq<Id>, now: int)
      requires Sound(Contents())
      modifies this`retractions, this`queue
      ensures Contents() == old(Contents()).(log := EachRetracted(old(TheLog()), active, |active|, now))
      ensures old(Coherent(Contents(), queue, now)) ==> Coherent(Contents(), queue, now)
    {
      ghost var s, q := Contents(), queue;
      for i := 0 to |active|
        invariant Contents() == s.(log := EachRetracted(s.log, active, i, now)) && Sound(Contents())
        invariant Coherent(s, q, now) ==> Coherent(Contents(), queue, now)
      {
        AppendRetraction(active[i], now);
      }
    }

    /** The session's new evidence, if it still qualifies, and the retraction of what was active before. */
    method ReplaceSessionEvidence(session: string, e: Option<Evidence>, added: seq<Link>, now: int)
      requires Sound(Contents())
      requires e.Some? ==> Sound(Contents().(log := Appended(TheLog(), Log([e.value], added, [], [], []))))
      modifies this`evidence, this`links, this`retractions, this`queue
      ensures var active := ActiveOfSession(old(evidence), old(retractions), old(invalidations), session);
        var made := if e.Some? then Appended(old(TheLog()), Log([e.value], added, [], [], [])) else old(TheLog());
        Contents() == old(Contents()).(log := EachRetracted(made, active, |active|, now))
      ensures old(Coherent(Contents(), queue, now)) ==> Coherent(Contents(), queue, now)
    {
      var active := ActiveOfSession(evidence, retractions, invalidations, session);
      if e.Some? {
        CreateEvidence(e.value, added, now);
      }
      RetractEach(active, now);
    }

    // ---- Definitions ----------------------------------------------------------------------------

    /**
     A later version becomes the active definition of its competency, with work of all four kinds.  An unknown
     definition, a key used for another activation, the active definition and an earlier version are refused, and a key
     used for this activation changes nothing.
     */
    method ActivateDefinition(key: Option<Id>, competency: Id, definition: Id, now: int)
      returns (reply: ActivationReply)
      requires Sound(Contents())
      modifies this`active, this`activationKeys, this`queue
      ensures reply == ReplyToActivation(catalog, old(active), old(activationKeys), key, competency, definition)
      ensures Contents() == old(Contents()).(
        active := if reply == NowActive then old(active)[competency := definition] else old(active))
      ensures queue == old(queue) + (if reply == NowActive then DefinitionRequests(competency) else [])
      ensures Activated(active, activationKeys) ==
        Answered(catalog, Activated(old(active), old(activationKeys)), Request(key, competency, definition))
      ensures old(Coherent(Contents(), queue, now)) ==> Coherent(Contents(), queue, now)
    {
      if definition !in catalog || catalog[definition].competency != competency {
        return NoDefinition;
      }
      if key.Some? && key.value in activationKeys {
        return if activationKeys[key.value] == (competency, definition) then Replayed else KeyTaken;
      }
      if competency in active {
        if active[competency] == definition {
          return AlreadyActive;
        }
        if active[competency] in catalog && catalog[definition].version <= catalog[active[competency]].version {
          return Backward;
        }
      }
      Activate(competency, definition, now);
      if key.Some? {
        activationKeys := activationKeys[key.value := (competency, definition)];
      }
      reply := NowActive;
    }

    /** The definition becomes the active one, and its work is queued. */
    method Activate(competency: Id, definition: Id, now: int)
      requires Sound(Contents()) && definition in catalog && catalog[definition].competency == competency
      modifies this`active, this`queue
      ensures Contents() == old(Contents()).(active := old(active)[competency := definition])
      ensures queue == old(queue) + DefinitionRequests(competency)
      ensures old(Coherent(Contents(), queue, now)) ==> Coherent(Contents(), queue, now)
    {
      ghost var s, q := Contents(), queue;
      active := active[competency := definition];
      var requests := DefinitionRequests(competency);
      queue := queue + requests;
      assert Requested(Capability, OfCompetency(competency)) == requests[1];
      if Coherent(s, q, now) { ActivationKeepsCoherence(s, q, queue, competency, definition, now); }
    }

    /** Criterion, capability and review work for every competency with an active definition; how many items that is. */
    method EnqueueFullRebuild() returns (count: nat)
      modifies this`queue
      ensures count == 3 * |active.Keys| && old(queue) <= queue && |queue| == |old(queue)| + count
      ensures forall x :: x in queue[|old(queue)|..] <==> RebuildAsks(active.Keys, x)
      ensures Queues(queue[|old(queue)|..], active.Keys)
    {
      ghost var before := queue;
      var todo := active.Keys;
      count := 0;
      while todo != {}
        invariant before <= queue && todo <= active.Keys && |queue| == |before| + count
        invariant count == 3 * (|active.Keys| - |todo|)
        invariant forall x :: x in queue[|before|..] <==> RebuildAsks(active.Keys - todo, x)
        decreases todo
      {
        var c :| c in todo;
        ghost var done := active.Keys - todo;
        todo := todo - {c};
        var requests := DefinitionRequests(c)[..3];
        ghost var added := queue[|before|..];
        queue := queue + requests;
        count := count + 3;
        assert queue[|before|..] == added + requests && active.Keys - todo == done + {c};
        forall x ensures x in added + requests <==> RebuildAsks(done + {c}, x) {
          RebuildAsksMore(done, c, x);
        }
      }
      assert active.Keys - todo == active.Keys;
      forall c | c in active.Keys ensures Requested(Capability, OfCompetency(c)) in queue[|before|..] {
        assert DefinitionRequests(c)[..3][1] == Requested(Capability, OfCompetency(c));
        assert RebuildAsks(active.Keys, Requested(Capability, OfCompetency(c)));
      }
    }

    /** After a restore the cache is rebuilt from history and everything is queued, so nothing is stale unnoticed. */
    method Restore(now: int) returns (seeded: bool)
      modifies this`states, this`queue
      ensures seeded <==> RunsPresent(LatestMap(events), SeedKeys(LatestMap(events), active), runs)
      ensures seeded ==> IsSeeded(states, LatestMap(events), SeedKeys(LatestMap(events), active), runs, evidence)
      ensures seeded ==> Coherent(Contents(), queue, now)
    {
      states := map[];
      seeded := SeedFromHistory();
      if seeded {
        ghost var before := queue;
        var count := EnqueueFullRebuild();
        RebuiltIsCoherent(Contents(), before, queue, now);
      }
    }

    // ---- Evaluation -----------------------------------------------------------------------------

    /** Assess the scope's criteria and apply the downgrade policy. */
    method DecideScope(
        d: Definition, key: Key, facts: seq<Fact>, cutoff: int) returns (a: Assessed, o: Outcome, decision: Decision)
      requires Evaluable(Contents(), d, key) && facts == ScopeFacts(TheLog(), key, cutoff)
      ensures a == AssessScope(Contents(), d, key, cutoff) && o == ScopeOutcome(Contents(), d, key, cutoff)
      ensures a.KnownLevels() && decision == DecisionFor(a, o)
    {
      a := Assessed(d.scale, d.levels, Results(ScopeCriteria(d, key.dimension), facts), facts);
      AssessmentKnowsLevels(Contents(), d, key, cutoff);
      var candidate, passed := a.CandidateLevel();
      var prior := PolicyPrior(Contents(), key, d.id, cutoff);
      o := ApplyDowngradePolicy(TheLog(), runs, events, prior, candidate, a, cutoff);
      decision := Conclude(a, o, passed);
    }

    /** The confidence in an outcome, and the evidence that decided it. */
    method Conclude(a: Assessed, o: Outcome, passed: seq<Level>) returns (decision: Decision)
      requires a.KnownLevels() && passed == a.Passed()
      ensures decision == DecisionFor(a, o)
    {
      var cumulative := Cumulative(a, o.selected);
      var high, unmet := false, {};
      if o.selected.Some? {
        high, unmet := HighConfidence(cumulative, a.facts, o.selected.value.id);
      }
      var contradictions := QualifyingContradictions(a.results);
      var decisive := DecisiveIds(cumulative, o);
      var diversity := |set f | f in a.facts && f.evidence.id in decisive :: OccurrenceOf(f.evidence)|;
      decision := Decision(LevelIdOf(o.selected), if o.selected.Some? then Evaluated else NotEvaluated,
        ConfidenceIn(o.selected, o.retained, contradictions, high),
        ConfidenceFacts(unmet, contradictions, diversity, o.retained), o.cause, decisive, PassedIds(passed));
    }

    /** Append a run; a live one also appends its event if anything changed, and refreshes the projection. */
    method RecordRun(run: Run, replay: bool, meaningful: Option<int>)
      modifies this`runs, this`events, this`states
      ensures Contents() == Record(old(Contents()), run, replay, meaningful)
    {
      var id := |runs|;
      runs := runs + [run];
      if replay {
        return;
      }
      var previous := if run.key in states then Some(states[run.key]) else None;
      var latest := LatestEvent(events, run.key);
      var version := BeforeOf(previous, latest).version;
      if Changed(previous, latest, run) {
        version := version + 1;
        events := events + [EventFor(previous, latest, run, id)];
      }
      states := states[run.key := ProjectionFor(run, id, meaningful, version)];
    }

    method EvaluateOneScope(d: Definition, allFacts: seq<Fact>, dimension: Option<Id>, cutoff: int, stamp: int)
      requires Evaluable(Contents(), d, Key(d.competency, dimension))
      requires allFacts == FactsAt(TheLog(), d.competency, cutoff)
      modifies this`runs, this`events, this`states
      ensures Contents() == EvaluateScope(old(Contents()), d, dimension, cutoff, stamp)
    {
      var key := Key(d.competency, dimension);
      var facts := InScope(allFacts, dimension);
      var a, o, decision := DecideScope(d, key, facts, cutoff);
      var run := Run(key, d.id, cutoff, stamp, Payloads(facts), a.results, decision);
      if !AlreadyRun(runs, run) {
        var replay := key in states && states[key].lastEvaluated > cutoff;
        var meaningful := LatestMeaningfulEvidence(facts, ScopeCriteria(d, dimension), o.selected);
        RecordRun(run, replay, meaningful);
      }
    }

    method EvaluateNext(ghost s: Store, d: Definition, allFacts: seq<Fact>, i: nat, cutoff: int, clock: nat -> int)
      requires Governs(s, d) && i < |Scopes(d)| && Contents() == EvaluateScopes(s, d, i, cutoff, clock)
      requires allFacts == FactsAt(TheLog(), d.competency, cutoff)
      modifies this`runs, this`events, this`states
      ensures Contents() == EvaluateScopes(s, d, i + 1, cutoff, clock)
    {
      EvaluateScopesStep(s, d, i, cutoff, clock);
      EvaluateOneScope(d, allFacts, Scopes(d)[i], cutoff, clock(i));
    }

    method EvaluateAllScopes(d: Definition, allFacts: seq<Fact>, cutoff: int, clock: nat -> int)
      requires Governs(Contents(), d) && allFacts == FactsAt(TheLog(), d.competency, cutoff)
      modifies this`runs, this`events, this`states
      ensures Contents() == EvaluateScopes(old(Contents()), d, |Scopes(d)|, cutoff, clock)
    {
      ghost var s := Contents();
      for i := 0 to |Scopes(d)|
        invariant Contents() == EvaluateScopes(s, d, i, cutoff, clock)
      {
        EvaluateNext(s, d, allFacts, i, cutoff, clock);
      }
    }

    /** Every scope of the competency's active definition, overall first. */
    method Evaluate(competency: Id, cutoff: int, clock: nat -> int)
      requires Sound(Contents())
      modifies this`runs, this`events, this`states
      ensures Contents() == EvaluateCompetency(old(Contents()), Some(competency), cutoff, clock)
    {
      if competency in active && active[competency] in catalog {
        var d := catalog[active[competency]];
        var facts := ActiveEvidenceFacts(TheLog(), d.competency, cutoff);
        EvaluateAllScopes(d, facts, cutoff, clock);
      }
    }

    // ---- The drain ------------------------------------------------------------------------------

    /** After a crash: items left running are pending again. */
    method RecoverRunning()
      modifies this`queue
      ensures queue == StartOf(old(queue), true)
    {
      for i := 0 to |queue|
        invariant |queue| == |old(queue)|
        invariant forall j :: 0 <= j < i ==> queue[j] == RecoveredItem(old(queue)[j])
        invariant forall j :: i <= j < |queue| ==> queue[j] == old(queue)[j]
      {
        queue := queue[i := RecoveredItem(queue[i])];
      }
    }

    /** Take the item if it is still pending; otherwise another drain has it. */
    method Claim(i: nat) returns (claimed: bool)
      requires i < |queue|
      modifies this`queue
      ensures Contents() == old(Contents())
      ensures claimed <==> old(queue)[i].status == Pending
      ensures queue == if claimed
                       then old(queue)[i := old(queue)[i].(status := Running, attempts := old(queue)[i].attempts + 1)]
                         else old(queue)
    {
      claimed := queue[i].status == Pending;
      if claimed {
        queue := queue[i := queue[i].(status := Running, attempts := queue[i].attempts + 1)];
      }
    }

    /** Evaluate the item's competency and complete the item, in one transaction. */
    method Finish(i: nat, now: int, clock: nat -> int)
      requires Sound(Contents()) && i < |queue|
      modifies this`queue, this`runs, this`events, this`states
      ensures Contents() == EvaluateCompetency(old(Contents()), ItemCompetency(old(queue)[i], owners), now, clock)
      ensures queue == old(queue)[i := old(queue)[i].(status := Completed)]
    {
      var competency := ItemCompetency(queue[i], owners);
      if competency.Some? {
        Evaluate(competency.value, now, clock);
      }
      queue := queue[i := queue[i].(status := Completed)];
    }

    /**
     The evaluation raised and was rolled back: the item keeps its request and attempts, and is pending while any are
     left.
     */
    method Fail(i: nat, maxAttempts: nat)
      requires i < |queue|
      modifies this`queue
      ensures |queue| == |old(queue)| && queue == old(queue)[i := queue[i]]
      ensures var was, item := old(queue)[i], queue[i];
        && item.kind == was.kind && item.subject == was.subject && item.attempts == was.attempts
        && (item.status == Pending <==> item.attempts < maxAttempts)
        && (item.status == PermanentFailure <==> item.attempts >= maxAttempts)
    {
      queue := queue[i := queue[i].(status := AfterFailure(queue[i], maxAttempts))];
    }

    method Attempt(i: nat, fails: bool, maxAttempts: nat, now: int, clock: nat -> int) returns (claimed: bool)
      requires Sound(Contents()) && i < |queue|
      modifies this`queue, this`runs, this`events, this`states
      ensures claimed <==> old(queue)[i].status == Pending
      ensures Contents() == if claimed
                            then AfterAttempt(old(Contents()), ItemCompetency(old(queue)[i], owners), fails, now, clock)
                            else old(Contents())
      ensures queue == if claimed then old(queue)[i := DrainedItem(old(queue)[i], fails, maxAttempts)] else old(queue)
    {
      ghost var before := queue;
      claimed := Claim(i);
      if claimed {
        ghost var taken := queue[i];
        Work(i, fails, maxAttempts, now, clock);
        assert ItemCompetency(taken, owners) == ItemCompetency(before[i], owners);
        assert queue[i] == DrainedItem(before[i], fails, maxAttempts);
        assert queue == before[i := queue[i]];
      }
    }

    /** The evaluation of a claimed item succeeds or fails. */
    method Work(i: nat, fails: bool, maxAttempts: nat, now: int, clock: nat -> int)
      requires Sound(Contents()) && i < |queue|
      modifies this`queue, this`runs, this`events, this`states
      ensures Contents() == AfterAttempt(old(Contents()), ItemCompetency(old(queue)[i], owners), fails, now, clock)
      ensures queue == old(queue)[i := old(queue)[i].(
        status := if fails then AfterFailure(old(queue)[i], maxAttempts) else Completed)]
    {
      if fails {
        Fail(i, maxAttempts);
      } else {
        Finish(i, now, clock);
      }
    }

    /**
     One drain: each drainable item pending at the start is attempted exactly once; nothing else in the queue
     changes.  `fails` says which evaluations raise, `times` gives each attempt's cutoff and clock.
     */
    method Drain(
        maxAttempts: nat, recover: bool, fails: nat -> bool, times: nat -> (int, nat -> int)) returns (processed: nat)
      requires Sound(Contents())
      modifies this`queue, this`runs, this`events, this`states
      ensures var start := StartOf(old(queue), recover);
        var ids := PendingIds(start, |start|);
        && queue == DrainedQueue(start, ids, |ids|, fails, maxAttempts)
        && processed == Succeeded(ids, |ids|, fails)
        && Contents() == DrainedStore(old(Contents()), start, owners, ids, |ids|, fails, times)
    {
      if recover {
        RecoverRunning();
      }
      assert queue == StartOf(old(queue), recover);
      var ids := PendingIds(queue, |queue|);
      assert forall k :: 0 <= k < |ids| ==> ids[k] in ids;
      processed := DrainItems(ids, maxAttempts, fails, times);
    }

    // ---- Seeding from history -------------------------------------------------------------------

    /** The latest event of every scope. */
    method LatestEvents() returns (latest: map<Key, Event>)
      ensures latest == LatestMap(events)
    {
      latest := map[];
      for i := 0 to |events|
        invariant latest == LatestMap(events[..i])
      {
        assert events[..i + 1][..i] == events[..i];
        var e := events[i];
        if e.key !in latest || latest[e.key].sequence <= e.sequence {
          latest := latest[e.key := e];
        }
      }
      assert events[..|events|] == events;
    }

    /** Projections restored from the event log into an empty cache; a missing run abandons the seeding. */
    method SeedFromHistory() returns (seeded: bool)
      requires states == map[]
      modifies this`states
      ensures seeded <==> RunsPresent(LatestMap(events), SeedKeys(LatestMap(events), active), runs)
      ensures if seeded then IsSeeded(states, LatestMap(events), SeedKeys(LatestMap(events), active), runs, evidence)
        else states == map[]
    {
      var latest := LatestEvents();
      var keys := SeedKeys(latest, active);
      var todo := keys;
      while todo != {}
        invariant todo <= keys
        invariant IsSeeded(states, latest, keys - todo, runs, evidence)
        decreases todo
      {
        var key :| key in todo;
        if latest[key].run >= |runs| {
          states := map[];
          return false;
        }
        todo := todo - {key};
        states := states[key := Restored(runs, evidence, latest[key])];
      }
      assert keys - todo == keys;
      seeded := true;
    }

    // ---- Attempts -------------------------------------------------------------------------------

    /** The engine after `k` attempts of a drain that started from store `s` and queue `q`. */
    ghost predicate DrainedTo(
        s: Store, q: seq<Item>, ids: seq<nat>, k: nat, maxAttempts: nat, fails: nat -> bool,
        times: nat -> (int, nat -> int))
      requires Sound(s) && k <= |ids| && forall j :: 0 <= j < |ids| ==> ids[j] < |q|
      reads this
    {
      queue == DrainedQueue(q, ids, k, fails, maxAttempts)
        && Contents() == DrainedStore(s, q, owners, ids, k, fails, times)
    }

    /** The next attempt of that drain. */
    method AttemptNext(
        ghost s: Store, ghost q: seq<Item>, ids: seq<nat>, k: nat, maxAttempts: nat, fails: nat -> bool,
        times: nat -> (int, nat -> int))
      returns (succeeded: bool)
      requires Sound(s) && k < |ids| && forall j :: 0 <= j < |ids| ==> ids[j] < |q|
      requires (forall i, j :: 0 <= i < j < |ids| ==> ids[i] < ids[j]) && q[ids[k]].status == Pending
      requires DrainedTo(s, q, ids, k, maxAttempts, fails, times)
      modifies this`queue, this`runs, this`events, this`states
      ensures DrainedTo(s, q, ids, k + 1, maxAttempts, fails, times)
      ensures succeeded <==> !fails(ids[k])
    {
      var i := ids[k];
      DrainAttemptsOnce(q, ids, k, fails, maxAttempts, i);
      var claimed := Attempt(i, fails(i), maxAttempts, times(i).0, times(i).1);
      succeeded := claimed && !fails(i);
    }

    method DrainItems(
        ids: seq<nat>, maxAttempts: nat, fails: nat -> bool, times: nat -> (int, nat -> int)) returns (processed: nat)
      requires Sound(Contents())
      requires forall k :: 0 <= k < |ids| ==> ids[k] < |queue| && queue[ids[k]].status == Pending
      requires forall a, b :: 0 <= a < b < |ids| ==> ids[a] < ids[b]
      modifies this`queue, this`runs, this`events, this`states
      ensures queue == DrainedQueue(old(queue), ids, |ids|, fails, maxAttempts)
      ensures processed == Succeeded(ids, |ids|, fails)
      ensures Contents() == DrainedStore(old(Contents()), old(queue), owners, ids, |ids|, fails, times)
    {
      ghost var s, q := Contents(), queue;
      processed := 0;
      for k := 0 to |ids|
        invariant processed == Succeeded(ids, k, fails)
        invariant DrainedTo(s, q, ids, k, maxAttempts, fails, times)
      {
        var succeeded := AttemptNext(s, q, ids, k, maxAttempts, fails, times);
        if succeeded {
          processed := processed + 1;
        }
      }
    }
  }

  lemma {:induction false} LatestMapIsLatest(events: seq<Event>, key: Key)
    ensures LatestEvent(events, key) == if key in LatestMap(events) then Some(LatestMap(events)[key]) else None
  {
    if events != [] { LatestMapIsLatest(events[..|events| - 1], key); }
  }

  lemma {:induction false} SeededScope(s: Store, key: Key)
    requires forall e :: e in s.events ==> e.run < |s.runs|
    ensures key in Reseed(s).states <==> key in SeedKeys(LatestMap(s.events), s.active)
    ensures key in Reseed(s).states ==>
      LatestMap(s.events)[key].run < |s.runs|
        && Reseed(s).states[key] == Restored(s.runs, s.log.evidence, LatestMap(s.events)[key])
  {
    LatestMapIsLatest(s.events, key);
  }

  /** Seeding an emptied cache is the reseeding step, scope by scope. */
  lemma {:induction false} SeedingIsReseeding(s: Store, states: map<Key, Projection>, key: Key)
    requires forall e :: e in s.events ==> e.run < |s.runs|
    requires IsSeeded(states, LatestMap(s.events), SeedKeys(LatestMap(s.events), s.active), s.runs, s.log.evidence)
    ensures key in states <==> key in Reseed(s).states
    ensures key in states ==> states[key] == Reseed(s).states[key]
  {
    SeededScope(s, key);
  }

  lemma {:induction false} EvaluateScopesStep(s: Store, d: Definition, n: nat, cutoff: int, clock: nat -> int)
    requires Governs(s, d) && n < |Scopes(d)|
    ensures EvaluateScopes(s, d, n + 1, cutoff, clock)
      == EvaluateScope(EvaluateScopes(s, d, n, cutoff, clock), d, Scopes(d)[n], cutoff, clock(n))
  {}

  /** A command whose queued links cover what it affects keeps the cache coherent. */
  lemma {:induction false} CommandCoherence(
      s: Store, before: seq<Item>, after: seq<Item>, rows: Log, queued: seq<Link>, now: int)
    requires Sound(s) && before <= after
    requires forall l :: l in queued ==> Requested(Capability, OfCompetency(l.competency)) in after
    requires forall c :: c in Affected(s.log, rows) ==> exists l :: l in queued && l.competency == c
    ensures Coherent(s, before, now) ==> Coherent(s.(log := Appended(s.log, rows)), after, now)
  {
    if Coherent(s, before, now) { AppendKeepsCoherence(s, rows, before, after, now); }
  }
}

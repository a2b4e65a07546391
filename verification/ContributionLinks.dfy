/**
 Retracting the links of a contribution, each in favour of a link for its replacement, with work queued for the
 retracted links only: what the rows are, and when the cache still follows the log.
 */
module ContributionLinks {
  import opened Base
  import opened Model
  import opened ActiveFacts
  import opened Evaluation
  import opened HistoryRuns
  import opened Freshness
  import opened CoherenceLost

  /** The work one link asks for when its facts change. */
  function RequestsFor(l: Link): (r: set<Item>)
    ensures Requested(Capability, OfCompetency(l.competency)) in r
  {
    (if l.criterionIdentity.Some? then {Requested(CriterionEvaluation, OfCriterion(l.criterionIdentity.value))} else {})
    + {Requested(Capability, OfCompetency(l.competency)), Requested(Kind.Review, OfCompetency(l.competency)),
       Requested(Analysis, OfCompetency(l.competency))}
  }


  ghost predicate DistinctLinks(links: seq<Link>) {
    forall l, m :: l in links && m in links && l.id == m.id ==> l == m
  }

  /** What a session contributed to: a competency, or one of its criteria. */
  datatype Contribution = Contribution(id: Id, competency: Id, criterionIdentity: Option<Id>, details: Id)

  /** The links made for a contribution that are not retracted. */
  function LiveLinksOf(links: seq<Link>, retractions: seq<LinkRetraction>, contribution: Id): (r: seq<Link>)
    ensures forall l :: l in r <==> l in links && l.contribution == Some(contribution) && !exists x ::
      x in retractions && x.linkId == l.id
  {
    Filter(links, (l: Link) => l.contribution == Some(contribution) && !exists x ::
      x in retractions && x.linkId == l.id)
  }


  function ContributionLink(c: Contribution, evidenceId: Id, id: Id, now: int): Link {
    Link(id, evidenceId, c.competency, c.criterionIdentity, None, None, Supports, c.details, Some(c.id), now)
  }

  /** The link that replaces `l`, unless there is no replacement or its evidence is linked to it already. */
  function ReplacementLink(
      links: seq<Link>, l: Link, replacement: Option<Contribution>, id: Id, now: int): Option<Link> {
    if replacement.Some? && !exists m ::
      m in links && m.evidenceId == l.evidenceId && m.contribution == Some(replacement.value.id)
    then Some(ContributionLink(replacement.value, l.evidenceId, id, now)) else None
  }

  /** The rows that retracting one link in favour of the replacement adds. */
  function ReplacementRows(links: seq<Link>, l: Link, replacement: Option<Contribution>, id: Id, now: int): Log {
    var r := ReplacementLink(links, l, replacement, id, now);
    if r.Some? then Replaced(l, r.value, now) else Unlinked(l, now)
  }

  /** The log after the first `n` links have been retracted. */
  function LinksReplaced(
      log: Log, live: seq<Link>, n: nat, replacement: Option<Contribution>, ids: nat -> Id, now: int): Log
    requires n <= |live|
  {
    if n == 0 then log
    else
      var before := LinksReplaced(log, live, n - 1, replacement, ids, now);
      Appended(before, ReplacementRows(before.links, live[n - 1], replacement, ids(n - 1), now))
  }

  /** The replacement is on the link's own competency, or on one the command need not care about. */
  ghost predicate ReplacementIsServed(s: Store, queue: seq<Item>, l: Link, r: Link, now: int) {
    || r.competency == l.competency || r.competency !in s.active || Outstanding(queue, r.competency)
    || EvidenceWithdrawn(s.log, l.evidenceId, now)
  }

  /** What the requests of a link leave as it was. */
  lemma {:induction false} RequestsServeTheirOwn(queue: seq<Item>, queue': seq<Item>, l: Link, c: Id)
    requires queue <= queue' && (forall x :: x in queue'[|queue|..] ==> x in RequestsFor(l)) && c != l.competency
    ensures Outstanding(queue', c) ==> Outstanding(queue, c)
  {
    if Outstanding(queue', c) {
      var x :| x in queue' && x.kind == Capability && x.subject == OfCompetency(c) && x.status != Completed;
      assert queue' == queue + queue'[|queue|..];
      assert x !in RequestsFor(l);
    }
  }

  /** Retracting one link, with work for that link only: coherent afterwards exactly when the replacement is served. */
  lemma {:induction false} ReplacementOutcome(
      s: Store, queue: seq<Item>, queue': seq<Item>, l: Link, replacement: Option<Contribution>, id: Id, now: int)
    requires Sound(s) && NoFuture(s.log, now) && Coherent(s, queue, now)
    requires l in s.log.links && DistinctLinks(s.log.links) && (forall m :: m in s.log.links ==> m.id != id)
    requires forall x :: x in s.log.linkRetractions ==> x.linkId != id
    requires queue <= queue' && Requested(Capability, OfCompetency(l.competency)) in queue'
    requires forall x :: x in queue'[|queue|..] ==> x in RequestsFor(l)
    ensures var r := ReplacementLink(s.log.links, l, replacement, id, now);
      Coherent(s.(log := Appended(s.log, ReplacementRows(s.log.links, l, replacement, id, now))), queue', now)
      <==> (r.Some? ==> ReplacementIsServed(s, queue, l, r.value, now))
  {
    var r := ReplacementLink(s.log.links, l, replacement, id, now);
    if r.Some? {
      if r.value.competency != l.competency { RequestsServeTheirOwn(queue, queue', l, r.value.competency); }
      ReplacementKeepsCoherenceIff(s, queue, queue', l, r.value, now);
    } else {
      AppendKeepsCoherence(s, Unlinked(l, now), queue, queue', now);
    }
  }

  /** The identifiers from `i` on name no link. */
  ghost predicate UnusedFrom(log: Log, ids: nat -> Id, i: nat) {
    && (forall k: nat, m :: i <= k && m in log.links ==> m.id != ids(k))
    && forall k: nat, x :: i <= k && x in log.linkRetractions ==> x.linkId != ids(k)
  }

  /** Work for the first `i` links is queued. */
  ghost predicate AskedFor(live: seq<Link>, i: nat, queue: seq<Item>)
    requires i <= |live|
  {
    i > 0 ==> AskedFor(live, i - 1, queue) && Requested(Capability, OfCompetency(live[i - 1].competency)) in queue
  }


  lemma {:induction false} AskedForAll(live: seq<Link>, i: nat, queue: seq<Item>, queue': seq<Item>)
    requires i <= |live| && AskedFor(live, i, queue) && queue <= queue'
    ensures AskedFor(live, i, queue')
    ensures forall j :: 0 <= j < i ==> Requested(Capability, OfCompetency(live[j].competency)) in queue'
  {
    if i > 0 { AskedForAll(live, i - 1, queue, queue'); }
  }


  /** `s` is sound, its links are told apart by their ids, and the identifiers from `i` on name none. */
  ghost predicate Ready(s: Store, live: seq<Link>, ids: nat -> Id, i: nat) {
    && Sound(s) && DistinctLinks(s.log.links) && UnusedFrom(s.log, ids, i)
    && forall l :: l in live ==> l in s.log.links
  }

  ghost predicate Injective(ids: nat -> Id) { forall j: nat, k: nat :: j != k ==> ids(j) != ids(k) }

  lemma {:induction false} ReplacementRowsFit(
      s: Store, live: seq<Link>, replacement: Option<Contribution>, ids: nat -> Id, i: nat, now: int)
    requires i < |live| && Ready(s, live, ids, i) && Injective(ids)
    ensures var log := Appended(s.log, ReplacementRows(s.log.links, live[i], replacement, ids(i), now));
      && Ready(s.(log := log), live, ids, i + 1)
      && (NoFuture(s.log, now) ==> NoFuture(log, now)) && forall m :: m in s.log.links ==> m in log.links
  {
    var l := live[i];
    var r := ReplacementLink(s.log.links, l, replacement, ids(i), now);
    assert s.log.evidence + [] == s.log.evidence;
    if r.None? { assert s.log.links + [] == s.log.links; }
    assert EvidenceById(s.log.evidence, l.evidenceId).Some?;
  }

  /** Beside what was queued, the work of the first `i` links is, and no other capability work. */
  ghost predicate AsksFor(live: seq<Link>, i: nat, queue: seq<Item>, queue': seq<Item>)
    requires i <= |live|
  {
    && queue <= queue' && AskedFor(live, i, queue')
    && forall c :: Outstanding(queue', c) ==> Outstanding(queue, c) || HasCompetency(live, i, c)
  }

  ghost predicate HasCompetency(live: seq<Link>, i: nat, c: Id)
    requires i <= |live|
  {
    exists j :: 0 <= j < i && live[j].competency == c
  }

  lemma {:induction false} AsksForNext(
      live: seq<Link>, i: nat, queue: seq<Item>, before: seq<Item>, after: seq<Item>)
    requires i < |live| && AsksFor(live, i, queue, before) && before <= after
    requires Requested(Capability, OfCompetency(live[i].competency)) in after
    requires forall x :: x in after[|before|..] ==> x in RequestsFor(live[i])
    ensures AsksFor(live, i + 1, queue, after)
  {
    AskedForAll(live, i, before, after);
    forall c | Outstanding(after, c) ensures Outstanding(queue, c) || HasCompetency(live, i + 1, c) {
      if c == live[i].competency {
        assert HasCompetency(live, i + 1, c);
      } else {
        RequestsServeTheirOwn(before, after, live[i], c);
        assert HasCompetency(live, i, c) ==> HasCompetency(live, i + 1, c);
      }
    }
  }

  // ---- The log after the links are retracted ----------------------------------------------------

  function After(s: Store, live: seq<Link>, n: nat, replacement: Option<Contribution>, ids: nat -> Id, now: int): Store
    requires n <= |live|
  {
    s.(log := LinksReplaced(s.log, live, n, replacement, ids, now))
  }

  lemma {:induction false} AfterFits(
      s: Store, live: seq<Link>, n: nat, replacement: Option<Contribution>, ids: nat -> Id, now: int)
    requires n <= |live| && Ready(s, live, ids, 0) && Injective(ids)
    ensures Ready(After(s, live, n, replacement, ids, now), live, ids, n)
    ensures NoFuture(s.log, now) ==> NoFuture(After(s, live, n, replacement, ids, now).log, now)
  {
    if n > 0 {
      AfterFits(s, live, n - 1, replacement, ids, now);
      ReplacementRowsFit(After(s, live, n - 1, replacement, ids, now), live, replacement, ids, n - 1, now);
    }
  }

  /** Evidence and its withdrawals stay as they were. */
  lemma {:induction false} EvidenceStays(
      log: Log, live: seq<Link>, n: nat, replacement: Option<Contribution>, ids: nat -> Id, now: int)
    requires n <= |live|
    ensures var after := LinksReplaced(log, live, n, replacement, ids, now);
      after.evidence == log.evidence && after.retractions == log.retractions && after.invalidations == log.invalidations
  {
    if n > 0 { EvidenceStays(log, live, n - 1, replacement, ids, now); }
  }

  /** Links are those of before and the ones made for the replacement; retractions those of before and of live links. */
  lemma {:induction false} LinksAfter(
      log: Log, live: seq<Link>, n: nat, replacement: Contribution, ids: nat -> Id, now: int)
    requires n <= |live|
    ensures var after := LinksReplaced(log, live, n, Some(replacement), ids, now);
      && (forall m :: m in log.links ==> m in after.links)
      && (forall m :: m in after.links ==> m in log.links || IsMade(live, n, replacement, ids, now, m))
      && forall x :: x in after.linkRetractions ==> x in log.linkRetractions || IsRetracted(live, x)
  {
    if n > 0 {
      LinksAfter(log, live, n - 1, replacement, ids, now);
      var before := LinksReplaced(log, live, n - 1, Some(replacement), ids, now);
      var r := ReplacementLink(before.links, live[n - 1], Some(replacement), ids(n - 1), now);
      if r.Some? { assert IsMade(live, n, replacement, ids, now, r.value); }
      assert forall m :: IsMade(live, n - 1, replacement, ids, now, m) ==> IsMade(live, n, replacement, ids, now, m);
    }
  }

  ghost predicate IsRetracted(live: seq<Link>, x: LinkRetraction) { exists l :: l in live && l.id == x.linkId }

  /** A link made for one of the first `n` live links. */
  ghost predicate IsMade(live: seq<Link>, n: nat, replacement: Contribution, ids: nat -> Id, now: int, m: Link)
    requires n <= |live|
  {
    exists k: nat :: k < n && m == ContributionLink(replacement, live[k].evidenceId, ids(k), now)
  }

  /** The evidence of `l` has no link for the replacement. */
  ghost predicate Needs(links: seq<Link>, l: Link, replacement: Contribution) {
    !exists m :: m in links && m.evidenceId == l.evidenceId && m.contribution == Some(replacement.id)
  }

  /** Evidence that has no link for the replacement is given one. */
  lemma {:induction false} NeededIsMade(
      log: Log, live: seq<Link>, n: nat, replacement: Contribution, ids: nat -> Id, now: int, i: nat) returns (m: Link)
    requires i < n <= |live| && Needs(log.links, live[i], replacement)
    ensures m in LinksReplaced(log, live, n, Some(replacement), ids, now).links
    ensures m.evidenceId == live[i].evidenceId && IsMade(live, n, replacement, ids, now, m)
  {
    var before := LinksReplaced(log, live, n - 1, Some(replacement), ids, now);
    if i < n - 1 {
      m := NeededIsMade(log, live, n - 1, replacement, ids, now, i);
    } else if Needs(before.links, live[i], replacement) {
      m := ContributionLink(replacement, live[i].evidenceId, ids(i), now);
    } else {
      m :| m in before.links && m.evidenceId == live[i].evidenceId && m.contribution == Some(replacement.id);
      LinksAfter(log, live, n - 1, replacement, ids, now);
      assert m !in log.links;
    }
  }

  // ---- The competencies the replacement is not on -----------------------------------------------

  lemma {:induction false} RowsAffect(log: Log, l: Link, replacement: Option<Contribution>, id: Id, now: int)
    requires l in log.links && DistinctLinks(log.links) && forall m :: m in log.links ==> m.id != id
    ensures var r := ReplacementLink(log.links, l, replacement, id, now);
      Affected(log, ReplacementRows(log.links, l, replacement, id, now))
        <= {l.competency} + (if r.Some? then {r.value.competency} else {})
  {}

  /** A competency neither retracted from nor linked to stays fresh. */
  lemma {:induction false} UntouchedStaysFresh(
      s: Store, live: seq<Link>, n: nat, replacement: Option<Contribution>, ids: nat -> Id, now: int, c: Id)
    requires n <= |live| && Ready(s, live, ids, 0) && Injective(ids) && Fresh(s, c, now) && !HasCompetency(live, n, c)
    requires replacement.Some? ==> replacement.value.competency != c
    ensures Fresh(After(s, live, n, replacement, ids, now), c, now)
  {
    if n > 0 {
      NoneBefore(live, n, c);
      UntouchedStaysFresh(s, live, n - 1, replacement, ids, now, c);
      AfterFits(s, live, n - 1, replacement, ids, now);
      UntouchedStep(After(s, live, n - 1, replacement, ids, now), live, n - 1, replacement, ids, now, c);
    }
  }

  lemma {:induction false} UntouchedStep(
      t: Store, live: seq<Link>, i: nat, replacement: Option<Contribution>, ids: nat -> Id, now: int, c: Id)
    requires i < |live| && Ready(t, live, ids, i) && Fresh(t, c, now) && live[i].competency != c
    requires replacement.Some? ==> replacement.value.competency != c
    ensures Fresh(t.(log := Appended(t.log, ReplacementRows(t.log.links, live[i], replacement, ids(i), now))), c, now)
  {
    RowsAffect(t.log, live[i], replacement, ids(i), now);
    FreshnessCarries(t, ReplacementRows(t.log.links, live[i], replacement, ids(i), now), c, now);
  }

  lemma {:induction false} NoneBefore(live: seq<Link>, n: nat, c: Id)
    requires 0 < n <= |live| && !HasCompetency(live, n, c)
    ensures !HasCompetency(live, n - 1, c) && live[n - 1].competency != c
  {
    if HasCompetency(live, n - 1, c) { assert HasCompetency(live, n, c); }
  }

  // ---- The competency of the replacement --------------------------------------------------------

  /** Whatever evidence would be given a link is withdrawn. */
  ghost predicate NeededIsWithdrawn(s: Store, live: seq<Link>, n: nat, replacement: Contribution, now: int)
    requires n <= |live|
  {
    forall j :: 0 <= j < n && Needs(s.log.links, live[j], replacement) ==>
      EvidenceWithdrawn(s.log, live[j].evidenceId, now)
  }

  lemma {:induction false} WithdrawnStepStaysFresh(
      t: Store, l: Link, live: seq<Link>, i: nat, replacement: Contribution, ids: nat -> Id, now: int)
    requires i < |live| && l == live[i] && Ready(t, live, ids, i) && NoFuture(t.log, now)
    requires replacement.competency in t.active && Fresh(t, replacement.competency, now)
    requires l.competency != replacement.competency
    requires Needs(t.log.links, l, replacement) ==> EvidenceWithdrawn(t.log, l.evidenceId, now)
    ensures var u := t.(log := Appended(t.log, ReplacementRows(t.log.links, l, Some(replacement), ids(i), now)));
      Fresh(u, replacement.competency, now)
  {
    var r := ReplacementLink(t.log.links, l, Some(replacement), ids(i), now);
    if r.Some? {
      ReplacementIsFreshIff(t, l, r.value, now);
    } else {
      RowsAffect(t.log, l, Some(replacement), ids(i), now);
      FreshnessCarries(t, Unlinked(l, now), replacement.competency, now);
    }
  }

  lemma {:induction false} NeededStaysWithdrawn(
      s: Store, live: seq<Link>, n: nat, replacement: Contribution, ids: nat -> Id, now: int, l: Link)
    requires n <= |live| && (Needs(s.log.links, l, replacement) ==> EvidenceWithdrawn(s.log, l.evidenceId, now))
    ensures var t := After(s, live, n, Some(replacement), ids, now);
      Needs(t.log.links, l, replacement) ==> EvidenceWithdrawn(t.log, l.evidenceId, now)
  {
    EvidenceStays(s.log, live, n, Some(replacement), ids, now);
    LinksAfter(s.log, live, n, replacement, ids, now);
  }

  lemma {:induction false} WithdrawnStaysFresh(
      s: Store, live: seq<Link>, n: nat, replacement: Contribution, ids: nat -> Id, now: int)
    requires n <= |live| && Ready(s, live, ids, 0) && Injective(ids) && NoFuture(s.log, now)
    requires replacement.competency in s.active && Fresh(s, replacement.competency, now)
    requires !HasCompetency(live, n, replacement.competency) && NeededIsWithdrawn(s, live, n, replacement, now)
    ensures Fresh(After(s, live, n, Some(replacement), ids, now), replacement.competency, now)
  {
    if n == 0 {
      assert After(s, live, n, Some(replacement), ids, now) == s;
    } else {
      NoneBefore(live, n, replacement.competency);
      FewerNeeded(s, live, n, replacement, now);
      WithdrawnStaysFresh(s, live, n - 1, replacement, ids, now);
      WithdrawnNext(s, live, n - 1, replacement, ids, now);
    }
  }

  lemma {:induction false} FewerNeeded(s: Store, live: seq<Link>, n: nat, replacement: Contribution, now: int)
    requires 0 < n <= |live| && NeededIsWithdrawn(s, live, n, replacement, now)
    ensures NeededIsWithdrawn(s, live, n - 1, replacement, now)
    ensures Needs(s.log.links, live[n - 1], replacement) ==> EvidenceWithdrawn(s.log, live[n - 1].evidenceId, now)
  {}

  lemma {:induction false} WithdrawnNext(
      s: Store, live: seq<Link>, n: nat, replacement: Contribution, ids: nat -> Id, now: int)
    requires n < |live| && Ready(s, live, ids, 0) && Injective(ids) && NoFuture(s.log, now)
    requires replacement.competency in s.active && live[n].competency != replacement.competency
    requires Needs(s.log.links, live[n], replacement) ==> EvidenceWithdrawn(s.log, live[n].evidenceId, now)
    requires Fresh(After(s, live, n, Some(replacement), ids, now), replacement.competency, now)
    ensures Fresh(After(s, live, n + 1, Some(replacement), ids, now), replacement.competency, now)
  {
    var t := After(s, live, n, Some(replacement), ids, now);
    AfterFits(s, live, n, Some(replacement), ids, now);
    NeededStaysWithdrawn(s, live, n, replacement, ids, now, live[n]);
    WithdrawnStepStaysFresh(t, live[n], live, n, replacement, ids, now);
  }

  lemma {:induction false} MadeIsLinked(
      s: Store, live: seq<Link>, replacement: Contribution, ids: nat -> Id, now: int, m: Link)
    requires Ready(s, live, ids, 0) && IsMade(live, |live|, replacement, ids, now, m)
    ensures !LinkWithdrawn(After(s, live, |live|, Some(replacement), ids, now).log, m.id, now)
    ensures m.competency == replacement.competency && m.dimension == None && m.createdAt == now
    ensures forall l :: l in s.log.links ==> l.id != m.id
  {
    LinksAfter(s.log, live, |live|, replacement, ids, now);
    var k: nat :| k < |live| && m == ContributionLink(replacement, live[k].evidenceId, ids(k), now);
    var t := After(s, live, |live|, Some(replacement), ids, now);
    forall x | x in t.log.linkRetractions ensures x.linkId != m.id {
      if x !in s.log.linkRetractions {
        var l :| l in live && l.id == x.linkId;
        assert l in s.log.links;
      }
    }
  }

  lemma {:induction false} KnownIsMentioned(t: Store, m: Link, now: int)
    requires Sound(t) && NoFuture(t.log, now) && m in t.log.links && m.createdAt <= now
    requires !EvidenceWithdrawn(t.log, m.evidenceId, now) && !LinkWithdrawn(t.log, m.id, now)
    ensures Mentions(ActivePayload(t.log, Key(m.competency, m.dimension), now), m.id)
  {
    assert EvidenceById(t.log.evidence, m.evidenceId).Some?;
    assert RowOf(t.log.evidence, m, m.competency, now).Some?;
    ActiveLinkIsMentioned(t.log, m, now);
  }

  /** A link made for evidence in force shows on the replacement's competency. */
  lemma {:induction false} MadeShows(
      s: Store, live: seq<Link>, replacement: Contribution, ids: nat -> Id, now: int, m: Link)
    requires Ready(s, live, ids, 0) && Injective(ids) && NoFuture(s.log, now)
    requires IsMade(live, |live|, replacement, ids, now, m) && !EvidenceWithdrawn(s.log, m.evidenceId, now)
    requires m in After(s, live, |live|, Some(replacement), ids, now).log.links
    ensures var key := Key(replacement.competency, None);
      && Mentions(ActivePayload(After(s, live, |live|, Some(replacement), ids, now).log, key, now), m.id)
      && !Mentions(ActivePayload(s.log, key, now), m.id)
  {
    MadeIsShown(s, live, replacement, ids, now, m);
    MadeIsLinked(s, live, replacement, ids, now, m);
    OnlyLoggedLinksAreMentioned(s.log, Key(replacement.competency, None), now, m.id);
  }

  lemma {:induction false} MadeIsShown(
      s: Store, live: seq<Link>, replacement: Contribution, ids: nat -> Id, now: int, m: Link)
    requires Ready(s, live, ids, 0) && Injective(ids) && NoFuture(s.log, now)
    requires IsMade(live, |live|, replacement, ids, now, m) && !EvidenceWithdrawn(s.log, m.evidenceId, now)
    requires m in After(s, live, |live|, Some(replacement), ids, now).log.links
    ensures var t := After(s, live, |live|, Some(replacement), ids, now);
      Mentions(ActivePayload(t.log, Key(replacement.competency, None), now), m.id)
  {
    AfterFits(s, live, |live|, Some(replacement), ids, now);
    EvidenceStays(s.log, live, |live|, Some(replacement), ids, now);
    MadeIsLinked(s, live, replacement, ids, now, m);
    KnownIsMentioned(After(s, live, |live|, Some(replacement), ids, now), m, now);
  }

  lemma {:induction false} UnservedIsStale(
      s: Store, live: seq<Link>, replacement: Contribution, ids: nat -> Id, now: int)
    requires Ready(s, live, ids, 0) && Injective(ids) && NoFuture(s.log, now)
    requires replacement.competency in s.active && Fresh(s, replacement.competency, now)
    requires !NeededIsWithdrawn(s, live, |live|, replacement, now)
    ensures !Fresh(After(s, live, |live|, Some(replacement), ids, now), replacement.competency, now)
  {
    var t, c := After(s, live, |live|, Some(replacement), ids, now), replacement.competency;
    var i :| 0 <= i < |live| && Needs(s.log.links, live[i], replacement)
      && !EvidenceWithdrawn(s.log, live[i].evidenceId, now);
    var m := NeededIsMade(s.log, live, |live|, replacement, ids, now, i);
    MadeShows(s, live, replacement, ids, now, m);
    var d := ActiveDefinition(s, c).value;
    assert ActiveDefinition(t, c) == Some(d) && AllFresh(s, d, c, now) && None in Scopes(d);
    assert ScopeFresh(s, Key(c, None), now);
    assert !ScopeFresh(t, Key(c, None), now);
  }

  // ---- The whole command ------------------------------------------------------------------------

  /**
   The replacement is on a competency the command queues work for, or has work anyway, or is inactive, or it is given
   links to withdrawn evidence only.
   */
  ghost predicate ContributionIsServed(
      s: Store, queue: seq<Item>, live: seq<Link>, replacement: Option<Contribution>, now: int)
  {
    replacement.Some? ==>
      var c := replacement.value.competency;
      || c !in s.active || Outstanding(queue, c) || HasCompetency(live, |live|, c)
      || NeededIsWithdrawn(s, live, |live|, replacement.value, now)
  }

  /** Every competency but the replacement's is served by the work queued for the retracted links. */
  lemma {:induction false} RetractedAreServed(
      s: Store, queue: seq<Item>, queue': seq<Item>, live: seq<Link>, replacement: Option<Contribution>, ids: nat -> Id,
      now: int, c: Id)
    requires Ready(s, live, ids, 0) && Injective(ids) && AsksFor(live, |live|, queue, queue')
    requires Outstanding(queue, c) || Fresh(s, c, now)
    requires replacement == None || replacement.value.competency != c || Outstanding(queue, c)
      || HasCompetency(live, |live|, c)
    ensures Outstanding(queue', c) || Fresh(After(s, live, |live|, replacement, ids, now), c, now)
  {
    if Outstanding(queue, c) {
      StillOutstanding(queue, queue', c);
    } else if HasCompetency(live, |live|, c) {
      AskedForAll(live, |live|, queue', queue');
    } else {
      UntouchedStaysFresh(s, live, |live|, replacement, ids, now, c);
    }
  }

  /** The whole command keeps a coherent cache coherent exactly when the replacement is served. */
  lemma {:induction false} ContributionOutcome(
      s: Store, queue: seq<Item>, queue': seq<Item>, live: seq<Link>, replacement: Option<Contribution>, ids: nat -> Id,
      now: int)
    requires Ready(s, live, ids, 0) && Injective(ids) && NoFuture(s.log, now) && Coherent(s, queue, now)
    requires AsksFor(live, |live|, queue, queue')
    ensures Coherent(After(s, live, |live|, replacement, ids, now), queue', now) <==>
      ContributionIsServed(s, queue, live, replacement, now)
  {
    var t := After(s, live, |live|, replacement, ids, now);
    forall c | c in s.active
        && (replacement == None || replacement.value.competency != c || Outstanding(queue, c)
            || HasCompetency(live, |live|, c))
      ensures Outstanding(queue', c) || Fresh(t, c, now)
    {
      RetractedAreServed(s, queue, queue', live, replacement, ids, now, c);
    }
    if replacement.Some? {
      var r := replacement.value;
      if r.competency in s.active && !Outstanding(queue, r.competency) && !HasCompetency(live, |live|, r.competency) {
        if NeededIsWithdrawn(s, live, |live|, r, now) {
          WithdrawnStaysFresh(s, live, |live|, r, ids, now);
        } else {
          UnservedIsStale(s, live, r, ids, now);
        }
      }
    }
  }
}

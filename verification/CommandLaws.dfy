/** What the evidence commands compare, select and append, in terms of the columns of the rows. */
module CommandLaws {
  import opened Base
  import opened Model
  import opened ActiveFacts
  import opened FactLaws
  import opened Downgrade
  import opened HistoryRuns
  import opened ContributionLinks
  import opened CapabilityStore

  // ---- Links --------------------------------------------------------------------------------------

  /** The links say the same of the same evidence. */
  ghost predicate SameStatement(l: Link, m: Link) {
    && l.evidenceId == m.evidenceId && l.competency == m.competency && l.criterionIdentity == m.criterionIdentity
    && l.criterion == m.criterion && l.dimension == m.dimension && l.effect == m.effect && l.details == m.details
  }

  /** A repeated key is answered with its link exactly when the link says the same. */
  lemma {:induction false} SamePayloadMeans(l: Link, m: Link)
    ensures SamePayload(l, m) <==> SameStatement(l, m)
  {}

  /** A link exists when one made for the same contribution, not retracted, says the same. */
  lemma {:induction false} LinkExistsMeans(links: seq<Link>, retractions: seq<LinkRetraction>, l: Link)
    ensures LinkExists(links, retractions, l) <==> exists m ::
      m in links && SameStatement(l, m) && l.contribution == m.contribution
      && forall x :: x in retractions ==> x.linkId != m.id
  {
    forall m: Link
      ensures l.(id := m.id, createdAt := m.createdAt) == m <==> SameStatement(l, m) && l.contribution == m.contribution
    {}
  }

  /** The evidence is already linked for the contribution. */
  ghost predicate LinkedFor(links: seq<Link>, evidence: Id, contribution: Id) {
    exists m :: m in links && m.evidenceId == evidence && m.contribution == Some(contribution)
  }

  /**
   A link of a corrected contribution is retracted, and its evidence linked to the replacement as support, unless it is
   already.
   */
  lemma {:induction false} ReplacementIsExact(
      log: Log, l: Link, replacement: Option<Contribution>, id: Id, now: int)
    ensures var after := Appended(log, ReplacementRows(log.links, l, replacement, id, now));
      && after.evidence == log.evidence && after.retractions == log.retractions
      && after.invalidations == log.invalidations
      && after.linkRetractions == log.linkRetractions + [LinkRetraction(l.id, now)]
      && (match replacement
          case None => after.links == log.links
          case Some(c) =>
            if LinkedFor(log.links, l.evidenceId, c.id) then after.links == log.links
            else
              && |after.links| == |log.links| + 1 && log.links <= after.links
              && var m := after.links[|log.links|];
                 && m.id == id && m.evidenceId == l.evidenceId && m.competency == c.competency
                 && m.criterionIdentity == c.criterionIdentity && m.criterion == None && m.dimension == None
                 && m.effect == Supports && m.details == c.details && m.contribution == Some(c.id)
                 && m.createdAt == now)
  {}

  // ---- A session's evidence -----------------------------------------------------------------------

  /** Evidence of the session that nothing has retracted or invalidated. */
  ghost predicate LiveOf(log: Log, session: string, id: Id) {
    && (exists e :: e in log.evidence && e.id == id && e.sourceType == "learning_session" && e.sourceId == session)
    && (forall r :: r in log.retractions ==> r.evidenceId != id)
    && (forall i :: i in log.invalidations ==> i.evidenceId != id)
  }

  lemma {:induction false} SessionEvidenceIs(log: Log, session: string, id: Id)
    ensures id in ActiveOfSession(log.evidence, log.retractions, log.invalidations, session) <==>
      LiveOf(log, session, id)
  {
    if LiveOf(log, session, id) {
      var e :| e in log.evidence && e.id == id && e.sourceType == "learning_session" && e.sourceId == session;
      assert IsActiveOf(e, log.retractions, log.invalidations, session);
    }
  }

  /** Retracting evidence one piece at a time appends one row each, in order, and nothing else. */
  lemma {:induction false} RetractionsAreAppended(log: Log, ids: seq<Id>, n: nat, now: int)
    requires n <= |ids|
    ensures EachRetracted(log, ids, n, now) ==
      log.(retractions := log.retractions + seq(n, i requires 0 <= i < n => Retraction(ids[i], now)))
  {
    var rows := seq(n, i requires 0 <= i < n => Retraction(ids[i], now));
    if n == 0 {
      assert log.retractions + rows == log.retractions;
    } else {
      RetractionsAreAppended(log, ids, n - 1, now);
      assert rows == seq(n - 1, i requires 0 <= i < n - 1 => Retraction(ids[i], now)) + [Retraction(ids[n - 1], now)];
      var before := EachRetracted(log, ids, n - 1, now);
      assert before.retractions + [Retraction(ids[n - 1], now)] == log.retractions + rows;
      assert before.evidence + [] == before.evidence && before.links + [] == before.links;
      assert before.invalidations + [] == before.invalidations;
      assert before.linkRetractions + [] == before.linkRetractions;
    }
  }

  // ---- What the cache is compared by --------------------------------------------------------------

  ghost predicate UniqueLinks(log: Log) {
    forall i, j :: 0 <= i < j < |log.links| ==> log.links[i].id != log.links[j].id
  }

  /** The payload of a fact identifies it: in one log, facts that look the same are the same. */
  lemma {:induction false} PayloadsTellFacts(log: Log, f: Fact, g: Fact)
    requires UniqueEvidence(log) && UniqueLinks(log)
    requires f.evidence in log.evidence && g.evidence in log.evidence && f.link in log.links && g.link in log.links
    ensures PayloadOf(f) == PayloadOf(g) <==> f == g
  {
    if PayloadOf(f) == PayloadOf(g) {
      var i :| 0 <= i < |log.evidence| && log.evidence[i] == f.evidence;
      var j :| 0 <= j < |log.evidence| && log.evidence[j] == g.evidence;
      var k :| 0 <= k < |log.links| && log.links[k] == f.link;
      var m :| 0 <= m < |log.links| && log.links[m] == g.link;
      assert i == j && k == m;
    }
  }

  /** So a cache that holds the active payloads was made from exactly the active facts. */
  lemma {:induction false} SamePayloadsSameFacts(log: Log, key: Key, cutoff: int, now: int)
    requires UniqueEvidence(log) && UniqueLinks(log)
    ensures Payloads(ScopeFacts(log, key, cutoff)) == Payloads(ScopeFacts(log, key, now)) <==>
      ScopeFacts(log, key, cutoff) == ScopeFacts(log, key, now)
  {
    var before, after := ScopeFacts(log, key, cutoff), ScopeFacts(log, key, now);
    ScopeFactsAreExact(log, key, cutoff);
    ScopeFactsAreExact(log, key, now);
    if Payloads(before) == Payloads(after) {
      forall i | 0 <= i < |before| ensures before[i] == after[i] {
        assert before[i] in before && after[i] in after;
        assert Payloads(before)[i] == Payloads(after)[i];
        PayloadsTellFacts(log, before[i], after[i]);
      }
    }
  }
}

/**
 The facts a competency's evaluation may use at a cutoff: evidence joined with its links, recorded
 and occurring by then, and not retracted, invalidated or unlinked by then.
 */
module ActiveFacts {
  import opened Base
  import opened Model

  datatype Fact = Fact(evidence: Evidence, link: Link)

  datatype Occurrence =
    | AssessmentSession(session: string)
    | Artifact(hash: string)
    | Source(sourceType: string, sourceId: string, occurredAt: Option<int>)

  const LEGACY_CONTEXT := "legacy_unknown"

  /** Python truthiness of an optional text field. */
  predicate Present(s: Option<string>) { s.Some? && s.value != "" }

  function OccurrenceOf(e: Evidence): Occurrence {
    if e.sourceType == "assessment_review" && Present(e.provenance.assessmentSession) then
      AssessmentSession(e.provenance.assessmentSession.value)
    else if Present(e.artifactHash) then Artifact(e.artifactHash.value)
    else Source(e.sourceType, e.sourceId, e.occurredAt)
  }

  function ContextOf(e: Evidence): string {
    if Present(e.provenance.context) then e.provenance.context.value
    else if Present(e.provenance.activity) then e.provenance.activity.value
    else LEGACY_CONTEXT
  }

  // ---- The query -----------------------------------------------------------------------------

  function EvidenceById(evidence: seq<Evidence>, id: Id): (r: Option<Evidence>)
    ensures r.Some? ==> r.value in evidence && r.value.id == id
    ensures r.None? ==> forall e :: e in evidence ==> e.id != id
  {
    if evidence == [] then None
    else if evidence[0].id == id then Some(evidence[0])
    else EvidenceById(evidence[1..], id)
  }

  function RowOf(evidence: seq<Evidence>, l: Link, competency: Id, cutoff: int): Option<Fact> {
    var e := EvidenceById(evidence, l.evidenceId);
    if e.Some? && l.competency == competency && e.value.createdAt <= cutoff && l.createdAt <= cutoff
    then Some(Fact(e.value, l)) else None
  }

  function Rows(evidence: seq<Evidence>, links: seq<Link>, competency: Id, cutoff: int): (rows: seq<Fact>)
    ensures forall f :: f in rows <==> f.link in links && RowOf(evidence, f.link, competency, cutoff) == Some(f)
  {
    if links == [] then []
    else
      var l := links[|links| - 1];
      var row := RowOf(evidence, l, competency, cutoff);
      Rows(evidence, links[..|links| - 1], competency, cutoff) + (if row.Some? then [row.value] else [])
  }

  /** ORDER BY evidence.created_at, evidence.id, link.id. */
  predicate Ordered(f: Fact, g: Fact) {
    || f.evidence.createdAt < g.evidence.createdAt
    || (f.evidence.createdAt == g.evidence.createdAt && f.evidence.id < g.evidence.id)
    || (f.evidence.createdAt == g.evidence.createdAt && f.evidence.id == g.evidence.id && f.link.id <= g.link.id)
  }

  ghost predicate AllOrdered(rows: seq<Fact>) {
    rows != [] ==> (forall g :: g in rows[1..] ==> Ordered(rows[0], g)) && AllOrdered(rows[1..])
  }

  function Insert(rows: seq<Fact>, f: Fact): (r: seq<Fact>)
    ensures multiset(r) == multiset(rows) + multiset{f}
    ensures forall g :: g in r <==> g in rows || g == f
  {
    if rows == [] || Ordered(f, rows[0]) then [f] + rows
    else
      assert rows == [rows[0]] + rows[1..];
      [rows[0]] + Insert(rows[1..], f)
  }

  lemma {:induction false} InsertOrdered(rows: seq<Fact>, f: Fact)
    requires AllOrdered(rows)
    ensures AllOrdered(Insert(rows, f))
  {
    if rows == [] {
    } else if Ordered(f, rows[0]) {
      assert ([f] + rows)[1..] == rows;
      forall g | g in rows ensures Ordered(f, g) {
        assert rows == [rows[0]] + rows[1..];
        assert g == rows[0] || Ordered(rows[0], g);
      }
    } else {
      InsertOrdered(rows[1..], f);
      assert Insert(rows, f)[1..] == Insert(rows[1..], f);
    }
  }

  function Sorted(rows: seq<Fact>): (r: seq<Fact>)
    ensures AllOrdered(r)
    ensures multiset(r) == multiset(rows)
    ensures forall f :: f in r <==> f in rows
  {
    if rows == [] then []
    else
      assert rows == rows[..|rows| - 1] + [rows[|rows| - 1]];
      var rest := Sorted(rows[..|rows| - 1]);
      InsertOrdered(rest, rows[|rows| - 1]);
      Insert(rest, rows[|rows| - 1])
  }

  // ---- The filter ----------------------------------------------------------------------------

  predicate EvidenceWithdrawn(log: Log, id: Id, cutoff: int) {
    || (exists r :: r in log.retractions && r.evidenceId == id && r.createdAt <= cutoff)
    || (exists i :: i in log.invalidations && i.evidenceId == id && i.createdAt <= cutoff)
  }

  predicate LinkWithdrawn(log: Log, id: Id, cutoff: int) {
    exists r :: r in log.linkRetractions && r.linkId == id && r.createdAt <= cutoff
  }

  predicate Active(log: Log, f: Fact, cutoff: int) {
    && (f.evidence.occurredAt.Some? ==> f.evidence.occurredAt.value <= cutoff)
    && !EvidenceWithdrawn(log, f.evidence.id, cutoff)
    && !LinkWithdrawn(log, f.link.id, cutoff)
  }

  function KeepActive(log: Log, rows: seq<Fact>, cutoff: int): (r: seq<Fact>)
    ensures forall f :: f in r <==> f in rows && Active(log, f, cutoff)
  {
    if rows == [] then []
    else
      var f := rows[|rows| - 1];
      KeepActive(log, rows[..|rows| - 1], cutoff) + (if Active(log, f, cutoff) then [f] else [])
  }

  function FactsAt(log: Log, competency: Id, cutoff: int): (r: seq<Fact>)
    ensures forall f :: f in r <==>
      f.link in log.links && RowOf(log.evidence, f.link, competency, cutoff) == Some(f) && Active(log, f, cutoff)
  {
    KeepActive(log, Sorted(Rows(log.evidence, log.links, competency, cutoff)), cutoff)
  }

  method ActiveEvidenceFacts(log: Log, competency: Id, cutoff: int) returns (facts: seq<Fact>)
    ensures facts == FactsAt(log, competency, cutoff)
  {
    var rows := Sorted(Rows(log.evidence, log.links, competency, cutoff));
    facts := [];
    for i := 0 to |rows|
      invariant facts == KeepActive(log, rows[..i], cutoff)
    {
      KeepActiveStep(log, rows, i, cutoff);
      var f := rows[i];
      if f.evidence.occurredAt.Some? && f.evidence.occurredAt.value > cutoff {
        continue;
      }
      if EvidenceWithdrawn(log, f.evidence.id, cutoff) {
        continue;
      }
      if LinkWithdrawn(log, f.link.id, cutoff) {
        continue;
      }
      facts := facts + [f];
    }
    assert rows[..|rows|] == rows;
  }

  lemma {:induction false} KeepActiveStep(log: Log, rows: seq<Fact>, i: nat, cutoff: int)
    requires i < |rows|
    ensures KeepActive(log, rows[..i + 1], cutoff)
         == KeepActive(log, rows[..i], cutoff) + (if Active(log, rows[i], cutoff) then [rows[i]] else [])
  {
    assert rows[..i + 1][..i] == rows[..i];
  }

  /** The facts of one scope of a competency. */
  function InScope(facts: seq<Fact>, dimension: Option<Id>): (r: seq<Fact>)
    ensures forall f :: f in r <==> f in facts && f.link.dimension == dimension
  {
    Filter(facts, (f: Fact) => f.link.dimension == dimension)
  }

  function ScopeFacts(log: Log, key: Key, cutoff: int): seq<Fact> {
    InScope(FactsAt(log, key.competency, cutoff), key.dimension)
  }

  // ---- When two logs show the same facts -----------------------------------------------------

  lemma {:induction false} RowsAgree(
      evidence: seq<Evidence>, evidence': seq<Evidence>, links: seq<Link>,
      competency: Id, cutoff: int, cutoff': int)
    requires forall l :: l in links ==>
      RowOf(evidence, l, competency, cutoff) == RowOf(evidence', l, competency, cutoff')
    ensures Rows(evidence, links, competency, cutoff) == Rows(evidence', links, competency, cutoff')
  {
    if links != [] {
      RowsAgree(evidence, evidence', links[..|links| - 1], competency, cutoff, cutoff');
    }
  }

  lemma {:induction false} RowsIgnore(
      evidence: seq<Evidence>, links: seq<Link>, more: seq<Link>, competency: Id, cutoff: int)
    requires forall l :: l in more ==> RowOf(evidence, l, competency, cutoff).None?
    ensures Rows(evidence, links + more, competency, cutoff) == Rows(evidence, links, competency, cutoff)
  {
    if more == [] {
      assert links + more == links;
    } else {
      var n := |links + more| - 1;
      assert (links + more)[..n] == links + more[..|more| - 1];
      RowsIgnore(evidence, links, more[..|more| - 1], competency, cutoff);
    }
  }

  lemma {:induction false} KeepActiveAgrees(log: Log, log': Log, rows: seq<Fact>, cutoff: int, cutoff': int)
    requires forall f :: f in rows ==> Active(log, f, cutoff) == Active(log', f, cutoff')
    ensures KeepActive(log, rows, cutoff) == KeepActive(log', rows, cutoff')
  {
    if rows != [] {
      KeepActiveAgrees(log, log', rows[..|rows| - 1], cutoff, cutoff');
    }
  }

  /** Later rows of every table are appended; ids stay unique, so lookups by id keep their answer. */
  lemma {:induction false} EvidenceByIdStable(evidence: seq<Evidence>, more: seq<Evidence>, id: Id)
    ensures EvidenceById(evidence, id).Some? ==> EvidenceById(evidence + more, id) == EvidenceById(evidence, id)
    ensures EvidenceById(evidence, id).None? ==> EvidenceById(evidence + more, id) == EvidenceById(more, id)
  {
    if evidence == [] {
      assert evidence + more == more;
    } else {
      assert (evidence + more)[1..] == evidence[1..] + more;
      EvidenceByIdStable(evidence[1..], more, id);
    }
  }

  /** Appended evidence and links the query does not select leave its rows as they were. */
  lemma {:induction false} RowsExtend(
      evidence: seq<Evidence>, evidence': seq<Evidence>, links: seq<Link>, links': seq<Link>, competency: Id,
      cutoff: int)
    requires forall l :: l in links ==> EvidenceById(evidence, l.evidenceId).Some?
    requires forall l :: l in links' ==> l.competency != competency || l.createdAt > cutoff
    ensures Rows(evidence + evidence', links + links', competency, cutoff) == Rows(evidence, links, competency, cutoff)
  {
    RowsIgnore(evidence + evidence', links, links', competency, cutoff);
    forall l | l in links
      ensures RowOf(evidence + evidence', l, competency, cutoff) == RowOf(evidence, l, competency, cutoff)
    {
      EvidenceByIdStable(evidence, evidence', l.evidenceId);
    }
    RowsAgree(evidence + evidence', evidence, links, competency, cutoff, cutoff);
  }

  /** The latest known occurrence time among the evidence rows with one of the given ids. */
  function LatestOccurrence(evidence: seq<Evidence>, ids: set<Id>): (r: Option<int>)
    ensures forall e :: e in evidence && e.id in ids && e.occurredAt.Some? ==>
      r.Some? && e.occurredAt.value <= r.value
    ensures r.Some? ==> exists e :: e in evidence && e.id in ids && e.occurredAt == r
  {
    if evidence == [] then None
    else
      var e := evidence[|evidence| - 1];
      var rest := LatestOccurrence(evidence[..|evidence| - 1], ids);
      if e.id in ids then Later(rest, e.occurredAt) else rest
  }

  lemma {:induction false} LatestOccurrenceAppend(evidence: seq<Evidence>, e: Evidence, ids: set<Id>)
    ensures LatestOccurrence(evidence + [e], ids)
      == if e.id in ids then Later(LatestOccurrence(evidence, ids), e.occurredAt) else LatestOccurrence(evidence, ids)
  {
    assert (evidence + [e])[..|evidence|] == evidence;
  }

  lemma {:induction false} LatestOccurrenceStable(evidence: seq<Evidence>, more: seq<Evidence>, ids: set<Id>)
    requires forall i :: 0 <= i < |more| ==> more[i].id !in ids
    ensures LatestOccurrence(evidence + more, ids) == LatestOccurrence(evidence, ids)
  {
    if more == [] {
      assert evidence + more == evidence;
    } else {
      var init, last := more[..|more| - 1], more[|more| - 1];
      assert evidence + more == (evidence + init) + [last];
      LatestOccurrenceStable(evidence, init, ids);
      LatestOccurrenceAppend(evidence + init, last, ids);
    }
  }
}

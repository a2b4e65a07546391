/** Which facts are active, and in which order the query lists them, on rows. */
module FactLaws {
  import opened Base
  import opened Model
  import opened ActiveFacts

  /** Evidence and a link to it, both recorded for the competency by the cutoff. */
  ghost predicate IsRow(log: Log, competency: Id, cutoff: int, f: Fact) {
    && f.link in log.links && f.evidence in log.evidence && f.link.evidenceId == f.evidence.id
    && f.link.competency == competency && f.evidence.createdAt <= cutoff && f.link.createdAt <= cutoff
  }

  /** The row has occurred by the cutoff, and nothing withdraws its evidence or its link by then. */
  ghost predicate IsActive(log: Log, competency: Id, cutoff: int, f: Fact) {
    && IsRow(log, competency, cutoff, f)
    && (f.evidence.occurredAt == None || f.evidence.occurredAt.value <= cutoff)
    && (forall r :: r in log.retractions && r.evidenceId == f.evidence.id ==> cutoff < r.createdAt)
    && (forall i :: i in log.invalidations && i.evidenceId == f.evidence.id ==> cutoff < i.createdAt)
    && (forall r :: r in log.linkRetractions && r.linkId == f.link.id ==> cutoff < r.createdAt)
  }

  ghost predicate UniqueEvidence(log: Log) {
    forall i, j :: 0 <= i < j < |log.evidence| ==> log.evidence[i].id != log.evidence[j].id
  }

  /** By the time the evidence was recorded, then by evidence, then by link. */
  ghost predicate NotAfter(f: Fact, g: Fact) {
    && f.evidence.createdAt <= g.evidence.createdAt
    && (f.evidence.createdAt == g.evidence.createdAt ==> f.evidence.id <= g.evidence.id)
    && (f.evidence.createdAt == g.evidence.createdAt && f.evidence.id == g.evidence.id ==> f.link.id <= g.link.id)
  }

  ghost predicate InQueryOrder(facts: seq<Fact>) {
    forall i, j :: 0 <= i < j < |facts| ==> NotAfter(facts[i], facts[j])
  }

  lemma {:induction false} RowMeans(log: Log, competency: Id, cutoff: int, f: Fact)
    requires UniqueEvidence(log)
    ensures f.link in log.links && RowOf(log.evidence, f.link, competency, cutoff) == Some(f) <==>
      IsRow(log, competency, cutoff, f)
  {
    if IsRow(log, competency, cutoff, f) {
      var e := EvidenceById(log.evidence, f.link.evidenceId);
      var i :| 0 <= i < |log.evidence| && log.evidence[i] == f.evidence;
      var j :| 0 <= j < |log.evidence| && log.evidence[j] == e.value;
      assert i == j;
    }
  }

  lemma {:induction false} OrderedPairs(facts: seq<Fact>)
    requires AllOrdered(facts)
    ensures InQueryOrder(facts)
  {
    if facts != [] {
      OrderedPairs(facts[1..]);
      forall i, j | 0 <= i < j < |facts| ensures NotAfter(facts[i], facts[j]) {
        if i == 0 {
          assert facts[j] in facts[1..];
          assert Ordered(facts[0], facts[j]);
        } else {
          assert NotAfter(facts[1..][i - 1], facts[1..][j - 1]);
        }
      }
    }
  }

  lemma {:induction false} OrderedInit(facts: seq<Fact>)
    requires facts != [] && InQueryOrder(facts)
    ensures InQueryOrder(facts[..|facts| - 1]) && forall f :: f in facts ==> NotAfter(f, facts[|facts| - 1])
  {}

  /** Appending a fact that comes after all of them, or nothing. */
  lemma {:induction false} OrderedAppend(facts: seq<Fact>, last: Fact, some: seq<Fact>)
    requires InQueryOrder(facts) && (some == [] || some == [last])
    requires forall f :: f in facts ==> NotAfter(f, last)
    ensures InQueryOrder(facts + some)
  {}

  lemma {:induction false} KeepsOrder(log: Log, rows: seq<Fact>, cutoff: int)
    requires InQueryOrder(rows)
    ensures InQueryOrder(KeepActive(log, rows, cutoff))
  {
    if rows != [] {
      var init, f := rows[..|rows| - 1], rows[|rows| - 1];
      OrderedInit(rows);
      KeepsOrder(log, init, cutoff);
      OrderedAppend(KeepActive(log, init, cutoff), f, if Active(log, f, cutoff) then [f] else []);
    }
  }

  lemma {:induction false} FilterKeepsOrder(rows: seq<Fact>, p: Fact -> bool)
    requires InQueryOrder(rows)
    ensures InQueryOrder(Filter(rows, p))
  {
    if rows != [] {
      var init, f := rows[..|rows| - 1], rows[|rows| - 1];
      OrderedInit(rows);
      FilterKeepsOrder(init, p);
      OrderedAppend(Filter(init, p), f, if p(f) then [f] else []);
    }
  }

  /** The facts of a scope are exactly its active rows, in the order of the query. */
  lemma {:induction false} ScopeFactsAreExact(log: Log, key: Key, cutoff: int)
    requires UniqueEvidence(log)
    ensures forall f :: f in ScopeFacts(log, key, cutoff) <==>
      IsActive(log, key.competency, cutoff, f) && f.link.dimension == key.dimension
    ensures InQueryOrder(ScopeFacts(log, key, cutoff))
  {
    var rows := Sorted(Rows(log.evidence, log.links, key.competency, cutoff));
    forall f ensures f in FactsAt(log, key.competency, cutoff) <==> IsActive(log, key.competency, cutoff, f) {
      RowMeans(log, key.competency, cutoff, f);
    }
    OrderedPairs(rows);
    KeepsOrder(log, rows, cutoff);
    FilterKeepsOrder(FactsAt(log, key.competency, cutoff), (f: Fact) => f.link.dimension == key.dimension);
  }

  /** The rows of a competency, active or not, in that order. */
  lemma {:induction false} RowsAreExact(log: Log, competency: Id, cutoff: int)
    requires UniqueEvidence(log)
    ensures var rows := Sorted(Rows(log.evidence, log.links, competency, cutoff));
      InQueryOrder(rows) && forall f :: f in rows <==> IsRow(log, competency, cutoff, f)
  {
    forall f
      ensures f in Sorted(Rows(log.evidence, log.links, competency, cutoff)) <==> IsRow(log, competency, cutoff, f)
    {
      RowMeans(log, competency, cutoff, f);
    }
    OrderedPairs(Sorted(Rows(log.evidence, log.links, competency, cutoff)));
  }
}

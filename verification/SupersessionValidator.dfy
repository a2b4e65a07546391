/**
 The validator of evidence lifecycles: it walks every supersession chain, looks for forks and matches retractions with
 replacements.  It accepts what the commands produce, and acceptance means linear chains with one active end each.
 */
module SupersessionValidator {
  import opened Base
  import opened Model
  import opened Supersession

  type Rows = map<Id, Fact>

  // ---- Chains -----------------------------------------------------------------------------------

  /** The fact reached from `id` by `n` steps of supersession. */
  function Up(rows: Rows, id: Id, n: nat): Option<Id> {
    if n == 0 then Some(id)
    else
      var below := Up(rows, id, n - 1);
      if below.Some? && below.value in rows then rows[below.value].supersedes else None
  }

  ghost predicate Ends(rows: Rows, id: Id) { exists n: nat :: Up(rows, id, n) == None }

  predicate KnownParents(rows: Rows) {
    forall x :: x in rows ==> rows[x].supersedes.Some? ==> rows[x].supersedes.value in rows
  }

  lemma {:induction false} UpShifts(rows: Rows, id: Id, k: nat, n: nat, j: nat)
    requires Up(rows, id, k) == Up(rows, id, n)
    ensures Up(rows, id, k + j) == Up(rows, id, n + j)
  {
    if j > 0 { UpShifts(rows, id, k, n, j - 1); }
  }

  lemma {:induction false} UpStaysDefined(rows: Rows, id: Id, m: nat, n: nat)
    requires m <= n && Up(rows, id, n).Some?
    ensures Up(rows, id, m).Some?
    decreases n
  {
    if m < n { UpStaysDefined(rows, id, m, n - 1); }
  }

  /** A chain that comes back to where it was never ends. */
  lemma {:induction false} RepeatsForever(rows: Rows, id: Id, k: nat, n: nat, m: nat)
    requires k < n && Up(rows, id, k) == Up(rows, id, n) && Up(rows, id, n).Some?
    ensures Up(rows, id, m).Some?
    decreases m
  {
    if m <= n {
      UpStaysDefined(rows, id, m, n);
    } else {
      UpShifts(rows, id, k, n, m - n);
      RepeatsForever(rows, id, k, n, k + (m - n));
    }
  }

  /** Follow one chain, remembering what was seen. */
  method Walk(rows: Rows, start: Id) returns (ends: bool)
    requires KnownParents(rows) && start in rows
    ensures ends <==> Ends(rows, start)
  {
    var seen: set<Id> := {};
    var current := start;
    ghost var n: nat := 0;
    while rows[current].supersedes.Some?
      invariant current in rows && Up(rows, start, n) == Some(current) && seen <= rows.Keys
      invariant forall x :: x in seen ==> exists k: nat :: k < n && Up(rows, start, k) == Some(x)
      decreases rows.Keys - seen
    {
      if current in seen {
        ghost var k: nat :| k < n && Up(rows, start, k) == Some(current);
        forall m: nat ensures Up(rows, start, m) != None { RepeatsForever(rows, start, k, n, m); }
        return false;
      }
      ghost var unseen := rows.Keys - seen;
      seen := seen + {current};
      assert current in unseen && current !in rows.Keys - seen;
      current := rows[current].supersedes.value;
      n := n + 1;
    }
    assert Up(rows, start, n + 1) == None;
    ends := true;
  }

  // ---- Lifecycle rows ---------------------------------------------------------------------------

  ghost predicate Child(rows: Rows, x: Id, p: Id) { x in rows && rows[x].supersedes == Some(p) }

  ghost predicate Unforked(rows: Rows) {
    forall x, y, p :: Child(rows, x, p) && Child(rows, y, p) ==> x == y
  }

  /** A replacement is another fact, and one that is present supersedes the retracted fact. */
  ghost predicate EndingFits(rows: Rows, e: Ending) {
    && e.replacement != Some(e.evidence)
    && (e.replacement.Some? && e.replacement.value in rows ==> rows[e.replacement.value].supersedes == Some(e.evidence))
  }

  ghost predicate Matched(rows: Rows, retractions: seq<Ending>) {
    forall x, p :: Child(rows, x, p) ==> EndingOf(retractions, p) == Some(Ending(p, Some(x)))
  }

  ghost predicate LifecycleOk(rows: Rows, retractions: seq<Ending>) {
    && KnownParents(rows)
    && (forall x :: x in rows ==> Ends(rows, x))
    && Unforked(rows)
    && (forall e :: e in retractions ==> EndingFits(rows, e))
    && Matched(rows, retractions)
  }

  /** The facts that supersede each fact. */
  method Children(rows: Rows) returns (children: map<Id, set<Id>>)
    ensures forall p :: p in children ==> children[p] != {}
    ensures forall x, p :: Child(rows, x, p) <==> p in children && x in children[p]
  {
    children := map[];
    var todo := rows.Keys;
    while todo != {}
      invariant todo <= rows.Keys && forall p :: p in children ==> children[p] != {}
      invariant forall x, p :: Child(rows, x, p) && x !in todo <==> p in children && x in children[p]
      decreases todo
    {
      var x :| x in todo;
      todo := todo - {x};
      if rows[x].supersedes.Some? {
        var p := rows[x].supersedes.value;
        children := children[p := (if p in children then children[p] else {}) + {x}];
      }
    }
  }

  method ChainsEnd(rows: Rows) returns (ok: bool)
    ensures ok <==> KnownParents(rows) && forall x :: x in rows ==> Ends(rows, x)
  {
    if !KnownParents(rows) {
      return false;
    }
    var todo := rows.Keys;
    while todo != {}
      invariant todo <= rows.Keys && forall x :: x in rows && x !in todo ==> Ends(rows, x)
      decreases todo
    {
      var x :| x in todo;
      todo := todo - {x};
      var ends := Walk(rows, x);
      if !ends {
        return false;
      }
    }
    ok := true;
  }

  predicate HasFork(children: map<Id, set<Id>>) { exists p :: p in children && |children[p]| > 1 }

  lemma {:induction false} ForksAreShared(rows: Rows, children: map<Id, set<Id>>)
    requires forall x, p :: Child(rows, x, p) <==> p in children && x in children[p]
    ensures HasFork(children) <==> !Unforked(rows)
  {
    if HasFork(children) {
      var p :| p in children && |children[p]| > 1;
      var x :| x in children[p];
      var y :| y in children[p] - {x} by { assert |children[p] - {x}| > 0; }
      assert Child(rows, x, p) && Child(rows, y, p);
    } else {
      forall x, y, p | Child(rows, x, p) && Child(rows, y, p) ensures x == y {
        if x != y {
          assert {x, y} <= children[p];
          SubsetSize({x, y}, children[p]);
        }
      }
    }
  }

  method EndingsFit(rows: Rows, retractions: seq<Ending>) returns (ok: bool, replaced: map<Id, Option<Id>>)
    ensures ok <==> forall e :: e in retractions ==> EndingFits(rows, e)
    ensures ok ==> forall p :: EndingOf(retractions, p) == if p in replaced then Some(Ending(p, replaced[p])) else None
  {
    replaced := map[];
    for i := 0 to |retractions|
      invariant forall e :: e in retractions[..i] ==> EndingFits(rows, e)
      invariant forall p :: EndingOf(retractions[..i], p) == if p in replaced then Some(Ending(p, replaced[p]))
        else None
    {
      var e := retractions[i];
      assert retractions[..i + 1] == retractions[..i] + [e];
      replaced := replaced[e.evidence := e.replacement];
      if e.replacement == Some(e.evidence) {
        assert e in retractions && !EndingFits(rows, e);
        return false, replaced;
      }
      if e.replacement.Some? && e.replacement.value in rows {
        if rows[e.replacement.value].supersedes != Some(e.evidence) {
          assert e in retractions && !EndingFits(rows, e);
          return false, replaced;
        }
      }
      forall p ensures EndingOf(retractions[..i + 1], p) == if p in replaced then Some(Ending(p, replaced[p]))
        else None {
        EndingAppended(retractions[..i], e, p);
      }
    }
    assert retractions[..|retractions|] == retractions;
    ok := true;
  }

  predicate ParentMatched(children: map<Id, set<Id>>, replaced: map<Id, Option<Id>>, p: Id)
    requires p in children
  {
    p in replaced && replaced[p].Some? && children[p] == {replaced[p].value}
  }

  method ValidateLifecycle(rows: Rows, retractions: seq<Ending>) returns (accepted: bool)
    ensures accepted <==> LifecycleOk(rows, retractions)
  {
    accepted := ChainsEnd(rows);
    if !accepted {
      return;
    }
    var children := Children(rows);
    ForksAreShared(rows, children);
    if HasFork(children) {
      return false;
    }
    var fit, replaced := EndingsFit(rows, retractions);
    if !fit {
      return false;
    }
    accepted := forall p :: p in children ==> ParentMatched(children, replaced, p);
    MatchingIsComplete(rows, retractions, children, replaced);
  }

  lemma {:induction false} MatchingIsComplete(
      rows: Rows, retractions: seq<Ending>, children: map<Id, set<Id>>, replaced: map<Id, Option<Id>>)
    requires Unforked(rows) && forall p :: p in children ==> children[p] != {}
    requires forall x, p :: Child(rows, x, p) <==> p in children && x in children[p]
    requires forall p :: EndingOf(retractions, p) == if p in replaced then Some(Ending(p, replaced[p])) else None
    ensures Matched(rows, retractions) <==> forall p :: p in children ==> ParentMatched(children, replaced, p)
  {
    forall p | p in children ensures ParentMatched(children, replaced, p)
        <==> forall x :: Child(rows, x, p) ==> EndingOf(retractions, p) == Some(Ending(p, Some(x))) {
      var x :| x in children[p];
      assert Child(rows, x, p);
      forall y | y in children[p] ensures y == x { assert Child(rows, y, p); }
      assert children[p] == {x};
    }
  }

  // ---- Acceptance implies linear chains ---------------------------------------------------------

  /** Two facts above the same fact lie on one chain: the nearer one is reached from the farther one. */
  lemma {:induction false} ChainsAreLinear(rows: Rows, x: Id, y: Id, n: nat, m: nat)
    requires Unforked(rows) && n <= m && Up(rows, x, n).Some? && Up(rows, x, n) == Up(rows, y, m)
    ensures Up(rows, y, m - n) == Some(x)
  {
    if n > 0 {
      var p := Up(rows, x, n).value;
      assert Child(rows, Up(rows, x, n - 1).value, p) && Child(rows, Up(rows, y, m - 1).value, p);
      ChainsAreLinear(rows, x, y, n - 1, m - 1);
    }
  }

  /** What is reached by at least one step is retracted. */
  lemma {:induction false} ReachedIsRetracted(rows: Rows, retractions: seq<Ending>, y: Id, n: nat)
    requires Matched(rows, retractions) && n > 0 && Up(rows, y, n).Some?
    ensures EndingOf(retractions, Up(rows, y, n).value).Some?
  {
    assert Child(rows, Up(rows, y, n - 1).value, Up(rows, y, n).value);
  }

  /** Of the facts an accepted history chains together at most one is not retracted. */
  lemma {:induction false} OneUnretractedPerChain(rows: Rows, retractions: seq<Ending>, x: Id, y: Id, n: nat, m: nat)
    requires LifecycleOk(rows, retractions) && Up(rows, x, n).Some? && Up(rows, x, n) == Up(rows, y, m)
    requires EndingOf(retractions, x).None? && EndingOf(retractions, y).None?
    ensures x == y
  {
    if n <= m {
      ChainsAreLinear(rows, x, y, n, m);
      if n < m { ReachedIsRetracted(rows, retractions, y, m - n); }
    } else {
      ChainsAreLinear(rows, y, x, m, n);
      ReachedIsRetracted(rows, retractions, x, n - m);
    }
  }

  // ---- The commands are accepted ----------------------------------------------------------------

  function RowsOf(facts: seq<Fact>): (rows: Rows)
    ensures forall x :: x in rows ==> rows[x] in facts && rows[x].id == x
    ensures forall f :: f in facts ==> f.id in rows
  {
    if facts == [] then map[]
    else
      var rows, f := RowsOf(facts[..|facts| - 1]), facts[|facts| - 1];
      assert facts == facts[..|facts| - 1] + [f];
      rows[f.id := f]
  }

  lemma {:induction false} RowIs(facts: seq<Fact>, f: Fact)
    requires DistinctFacts(facts) && f in facts
    ensures f.id in RowsOf(facts) && RowsOf(facts)[f.id] == f
  {
    IdsAreKeys(facts, RowsOf(facts)[f.id], f);
  }

  lemma {:induction false} UpFromParent(rows: Rows, id: Id, n: nat)
    requires id in rows && rows[id].supersedes.Some?
    ensures Up(rows, id, n + 1) == Up(rows, rows[id].supersedes.value, n)
  {
    if n > 0 { UpFromParent(rows, id, n - 1); }
  }

  lemma {:induction false} ChainEnds(b: Book, j: nat)
    requires Chained(b) && j < |b.facts|
    ensures Ends(RowsOf(b.facts), b.facts[j].id)
  {
    var rows, f := RowsOf(b.facts), b.facts[j];
    RowIs(b.facts, f);
    if f.supersedes.None? {
      assert Up(rows, f.id, 0 + 1) == None;
    } else {
      assert LinkOk(b, j);
      var i: nat :| i < j && b.facts[i].id == f.supersedes.value;
      ChainEnds(b, i);
      var n: nat :| Up(rows, b.facts[i].id, n) == None;
      UpFromParent(rows, f.id, n);
    }
  }

  lemma {:induction false} ChildrenAreMatched(b: Book, x: Id, p: Id)
    requires Chained(b) && Child(RowsOf(b.facts), x, p)
    ensures EndingOf(b.retractions, p) == Some(Ending(p, Some(x))) && p in RowsOf(b.facts)
  {
    var f := RowsOf(b.facts)[x];
    SupersededIsEnded(b, f);
    var j :| 0 <= j < |b.facts| && b.facts[j] == f;
    assert LinkOk(b, j);
  }

  lemma {:induction false} EndingsFitTheRows(b: Book, e: Ending)
    requires Chained(b) && e in b.retractions
    ensures EndingFits(RowsOf(b.facts), e)
  {
    assert EndingOk(b, e);
    if e.replacement.Some? {
      var g :| g in b.facts && g.id == e.replacement.value && g.supersedes == Some(e.evidence);
      RowIs(b.facts, g);
      var j :| 0 <= j < |b.facts| && b.facts[j] == g;
      assert LinkOk(b, j);
      var i :| 0 <= i < j && b.facts[i].id == e.evidence;
      assert b.facts[i].id != b.facts[j].id;
    }
  }

  /** The validator accepts every book a run of commands leaves. */
  lemma {:induction false} SoundBooksAreAccepted(b: Book)
    requires Sound(b)
    ensures LifecycleOk(RowsOf(b.facts), b.retractions)
  {
    var rows := RowsOf(b.facts);
    forall x, p | Child(rows, x, p) ensures EndingOf(b.retractions, p) == Some(Ending(p, Some(x))) && p in rows {
      ChildrenAreMatched(b, x, p);
    }
    forall x | x in rows && rows[x].supersedes.Some? ensures rows[x].supersedes.value in rows {
      assert Child(rows, x, rows[x].supersedes.value);
    }
    forall x | x in rows ensures Ends(rows, x) {
      var j :| 0 <= j < |b.facts| && b.facts[j] == rows[x];
      ChainEnds(b, j);
    }
    forall e | e in b.retractions ensures EndingFits(rows, e) { EndingsFitTheRows(b, e); }
  }
}

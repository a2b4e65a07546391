/**
 Undoing a session's corrections by stored order, time and then id, against undoing them in the order they were made.
 One column at a time: what either order leaves, when the two agree, and what a chain of corrections determines.
 */
module SessionCorrections {
  import opened SessionRows

  predicate Newer(a: Correction, b: Correction) {
    a.correctedAt > b.correctedAt || (a.correctedAt == b.correctedAt && a.id > b.id)
  }

  function Insert(c: Correction, cs: seq<Correction>): seq<Correction> {
    if cs == [] || Newer(c, cs[0]) then [c] + cs else [cs[0]] + Insert(c, cs[1..])
  }

  /** The stored corrections ordered by time and then id, both descending. */
  function NewestFirst(cs: seq<Correction>): seq<Correction> {
    if cs == [] then [] else Insert(cs[|cs| - 1], NewestFirst(cs[..|cs| - 1]))
  }

  /** The corrections in the order they were made, the last one first. */
  function Backwards(cs: seq<Correction>): seq<Correction> {
    if cs == [] then [] else [cs[|cs| - 1]] + Backwards(cs[..|cs| - 1])
  }

  /** The stored corrections made at the cutoff or later. */
  function Since(cs: seq<Correction>, cutoff: int): seq<Correction> {
    if cs == [] then []
    else Since(cs[..|cs| - 1], cutoff) + (if cs[|cs| - 1].correctedAt >= cutoff then [cs[|cs| - 1]] else [])
  }

  /** Those made before it. */
  function Until(cs: seq<Correction>, cutoff: int): seq<Correction> {
    if cs == [] then []
    else Until(cs[..|cs| - 1], cutoff) + (if cs[|cs| - 1].correctedAt < cutoff then [cs[|cs| - 1]] else [])
  }

  /** Each names its columns before and after, ids differ, and time does not go back. */
  ghost predicate Orderly(cs: seq<Correction>) {
    && (forall c :: c in cs ==> c.before.Keys == c.after.Keys)
    && forall i, j :: 0 <= i < j < |cs| ==> cs[i].correctedAt <= cs[j].correctedAt && cs[i].id != cs[j].id
  }

  // ---- One column -------------------------------------------------------------------------------

  function UndoneBy(v: Value, c: Correction, f: Field): Value { if f in c.before then c.before[f] else v }

  /** What undoing the corrections, first one first, leaves in one column. */
  function ColumnUndo(v: Value, cs: seq<Correction>, f: Field): Value
    decreases |cs|
  {
    if cs == [] then v else ColumnUndo(UndoneBy(v, cs[0], f), cs[1..], f)
  }

  /** Every correction of the column left the value that undoing the ones listed before it gives. */
  ghost predicate ColumnChained(v: Value, cs: seq<Correction>, f: Field)
    decreases |cs|
  {
    cs != [] ==> (f in cs[0].after ==> cs[0].after[f] == v) && ColumnChained(UndoneBy(v, cs[0], f), cs[1..], f)
  }

  lemma {:induction false} UndoConcat(v: Value, a: seq<Correction>, b: seq<Correction>, f: Field)
    ensures ColumnUndo(v, a + b, f) == ColumnUndo(ColumnUndo(v, a, f), b, f)
    ensures ColumnChained(v, a + b, f) <==> ColumnChained(v, a, f) && ColumnChained(ColumnUndo(v, a, f), b, f)
    decreases |a|
  {
    if a == [] {
      assert a + b == b;
    } else {
      assert (a + b)[1..] == a[1..] + b;
      UndoConcat(UndoneBy(v, a[0], f), a[1..], b, f);
    }
  }

  lemma {:induction false} Untouched(v: Value, cs: seq<Correction>, f: Field)
    requires forall c :: c in cs ==> f !in c.before
    ensures ColumnUndo(v, cs, f) == v
    decreases |cs|
  {
    if cs != [] {
      assert cs[0] in cs;
      Untouched(v, cs[1..], f);
    }
  }

  /** The last one listed that touches the column decides what is left. */
  lemma {:induction false} LastDecides(v: Value, cs: seq<Correction>, f: Field, i: nat)
    requires i < |cs| && f in cs[i].before && forall h :: i < h < |cs| ==> f !in cs[h].before
    ensures ColumnUndo(v, cs, f) == cs[i].before[f]
  {
    assert cs == cs[..i] + [cs[i]] + cs[i + 1..];
    UndoConcat(v, cs[..i] + [cs[i]], cs[i + 1..], f);
    UndoConcat(v, cs[..i], [cs[i]], f);
    assert ColumnUndo(ColumnUndo(v, cs[..i], f), [cs[i]], f) == cs[i].before[f];
    Untouched(cs[i].before[f], cs[i + 1..], f);
  }

  lemma {:induction false} LastTouching(cs: seq<Correction>, f: Field) returns (i: nat)
    requires exists c :: c in cs && f in c.before
    ensures i < |cs| && f in cs[i].before && forall h :: i < h < |cs| ==> f !in cs[h].before
  {
    i := |cs| - 1;
    if f !in cs[i].before {
      var init := cs[..i];
      var c :| c in cs && f in c.before;
      assert c in init;
      i := LastTouching(init, f);
    }
  }

  // ---- The two orders ---------------------------------------------------------------------------

  lemma {:induction false} InsertMembers(c: Correction, cs: seq<Correction>)
    ensures forall x :: x in Insert(c, cs) <==> x == c || x in cs
  {
    if cs != [] && !Newer(c, cs[0]) {
      InsertMembers(c, cs[1..]);
      assert cs == [cs[0]] + cs[1..];
    }
  }

  lemma {:induction false} NewestFirstMembers(cs: seq<Correction>)
    ensures forall x :: x in NewestFirst(cs) <==> x in cs
  {
    if cs != [] {
      NewestFirstMembers(cs[..|cs| - 1]);
      InsertMembers(cs[|cs| - 1], NewestFirst(cs[..|cs| - 1]));
      assert cs == cs[..|cs| - 1] + [cs[|cs| - 1]];
    }
  }

  /** A correction later than all the others is undone first. */
  lemma {:induction false} LatestLeads(cs: seq<Correction>, c: Correction)
    requires forall d :: d in cs ==> Newer(c, d)
    ensures NewestFirst(cs + [c]) == [c] + NewestFirst(cs)
  {
    NewestFirstMembers(cs);
    assert (cs + [c])[..|cs|] == cs;
    var rest := NewestFirst(cs);
    if rest != [] {
      assert rest[0] in rest;
    }
  }

  lemma {:induction false} BackwardsIndex(cs: seq<Correction>)
    ensures |Backwards(cs)| == |cs| && forall i :: 0 <= i < |cs| ==> Backwards(cs)[i] == cs[|cs| - 1 - i]
  {
    if cs != [] { BackwardsIndex(cs[..|cs| - 1]); }
  }

  ghost predicate Falls(cs: seq<Correction>) { forall i, j :: 0 <= i < j < |cs| ==> Newer(cs[i], cs[j]) }

  lemma {:induction false} InsertFalls(c: Correction, cs: seq<Correction>)
    requires Falls(cs) && forall x :: x in cs ==> x.id != c.id
    ensures Falls(Insert(c, cs))
  {
    if cs != [] && !Newer(c, cs[0]) {
      InsertFalls(c, cs[1..]);
      InsertMembers(c, cs[1..]);
      var rest := Insert(c, cs[1..]);
      forall i | 0 <= i < |rest| ensures Newer(cs[0], rest[i]) {
        assert rest[i] in rest && cs[0] in cs;
      }
    }
  }

  lemma {:induction false} NewestFirstFalls(cs: seq<Correction>)
    requires Orderly(cs)
    ensures Falls(NewestFirst(cs))
  {
    if cs != [] {
      var init, last := cs[..|cs| - 1], cs[|cs| - 1];
      NewestFirstFalls(init);
      NewestFirstMembers(init);
      forall x | x in init ensures x.id != last.id {
        var i :| 0 <= i < |init| && init[i] == x;
        assert cs[i] == x;
      }
      InsertFalls(last, NewestFirst(init));
    }
  }

  /** The first correction made that touches the column. */
  ghost predicate IsFirst(cs: seq<Correction>, f: Field, i: nat) {
    i < |cs| && f in cs[i].before && forall h :: 0 <= h < i ==> f !in cs[h].before
  }

  /** The least by time and id of those that touch the column. */
  ghost predicate IsLeast(cs: seq<Correction>, f: Field, c: Correction) {
    c in cs && f in c.before && forall d :: d in cs && f in d.before && d != c ==> Newer(d, c)
  }

  ghost predicate Touched(cs: seq<Correction>, f: Field) { exists c :: c in cs && f in c.before }

  /** Undoing in stored order leaves what the least correction of the column found. */
  lemma {:induction false} LeastDecides(v: Value, cs: seq<Correction>, f: Field, c: Correction)
    requires Orderly(cs) && IsLeast(cs, f, c)
    ensures ColumnUndo(v, NewestFirst(cs), f) == c.before[f]
  {
    var sorted := NewestFirst(cs);
    NewestFirstMembers(cs);
    NewestFirstFalls(cs);
    var i := LastTouching(sorted, f);
    assert sorted[i] in sorted;
    var k :| 0 <= k < |sorted| && sorted[k] == c;
    assert k <= i;
    assert sorted[i] == c;
    LastDecides(v, sorted, f, i);
  }

  /** Undoing in the order of the edits leaves what the first one of the column found. */
  lemma {:induction false} FirstDecides(v: Value, cs: seq<Correction>, f: Field, i: nat)
    requires IsFirst(cs, f, i)
    ensures ColumnUndo(v, Backwards(cs), f) == cs[i].before[f]
  {
    BackwardsIndex(cs);
    LastDecides(v, Backwards(cs), f, |cs| - 1 - i);
  }

  lemma {:induction false} NothingDecides(v: Value, cs: seq<Correction>, f: Field)
    requires !Touched(cs, f)
    ensures ColumnUndo(v, NewestFirst(cs), f) == ColumnUndo(v, Backwards(cs), f) == v
  {
    NewestFirstMembers(cs);
    Untouched(v, NewestFirst(cs), f);
    BackwardsIndex(cs);
    assert forall c :: c in Backwards(cs) ==> c in cs;
    Untouched(v, Backwards(cs), f);
  }

  lemma {:induction false} FirstExists(cs: seq<Correction>, f: Field) returns (i: nat)
    requires Touched(cs, f)
    ensures IsFirst(cs, f, i)
  {
    if f in cs[0].before {
      i := 0;
    } else {
      var c :| c in cs && f in c.before;
      assert cs == [cs[0]] + cs[1..] && c in cs[1..];
      var k := FirstExists(cs[1..], f);
      i := k + 1;
    }
  }

  lemma {:induction false} LeastExists(cs: seq<Correction>, f: Field) returns (c: Correction)
    requires Orderly(cs) && Touched(cs, f)
    ensures IsLeast(cs, f, c)
  {
    var init, last := cs[..|cs| - 1], cs[|cs| - 1];
    assert cs == init + [last];
    if Touched(init, f) {
      c := LeastExists(init, f);
      c := LesserOf(cs, f, c);
    } else {
      c :| c in cs && f in c.before;
    }
  }

  lemma {:induction false} LesserOf(cs: seq<Correction>, f: Field, d: Correction) returns (c: Correction)
    requires Orderly(cs) && cs != [] && IsLeast(cs[..|cs| - 1], f, d)
    ensures IsLeast(cs, f, c)
  {
    var init, last := cs[..|cs| - 1], cs[|cs| - 1];
    assert cs == init + [last];
    var k :| 0 <= k < |init| && init[k] == d;
    assert cs[k] == d && cs[k].id != last.id;
    c := if f in last.before && Newer(d, last) then last else d;
  }

  /** The first correction of the column made, and the least one stored, found the same value. */
  ghost predicate FirstIsLeast(cs: seq<Correction>, f: Field) {
    forall i: nat, c :: IsFirst(cs, f, i) && IsLeast(cs, f, c) ==> cs[i].before[f] == c.before[f]
  }

  /** Undoing in stored order is undoing the edits exactly when the first and the least one agree. */
  lemma {:induction false} OrdersAgreeIff(v: Value, cs: seq<Correction>, f: Field)
    requires Orderly(cs)
    ensures ColumnUndo(v, NewestFirst(cs), f) == ColumnUndo(v, Backwards(cs), f) <==> FirstIsLeast(cs, f)
  {
    if Touched(cs, f) {
      var i := FirstExists(cs, f);
      var c := LeastExists(cs, f);
      FirstDecides(v, cs, f, i);
      LeastDecides(v, cs, f, c);
      if FirstIsLeast(cs, f) {
        assert cs[i].before[f] == c.before[f];
      } else {
        var h: nat, d :| IsFirst(cs, f, h) && IsLeast(cs, f, d) && cs[h].before[f] != d.before[f];
        FirstDecides(v, cs, f, h);
        LeastDecides(v, cs, f, d);
      }
    } else {
      NothingDecides(v, cs, f);
      assert forall i: nat :: !IsFirst(cs, f, i);
    }
  }

  // ---- Ties in the order of the edits -----------------------------------------------------------

  /** Of two corrections of the column the one made later is the newer one: ties are in id order. */
  ghost predicate InOrder(cs: seq<Correction>, f: Field) {
    forall i, j :: 0 <= i < j < |cs| && f in cs[i].before && f in cs[j].before ==> Newer(cs[j], cs[i])
  }

  lemma {:induction false} InsertByColumn(v: Value, c: Correction, cs: seq<Correction>, f: Field)
    requires f in c.before ==> forall x :: x in cs && f in x.before ==> Newer(c, x)
    requires c.before.Keys == c.after.Keys && forall x :: x in cs ==> x.before.Keys == x.after.Keys
    ensures ColumnUndo(v, Insert(c, cs), f) == ColumnUndo(v, [c] + cs, f)
    ensures ColumnChained(v, Insert(c, cs), f) <==> ColumnChained(v, [c] + cs, f)
    decreases |cs|
  {
    if cs != [] && !Newer(c, cs[0]) {
      assert cs[0] in cs;
      InsertByColumn(UndoneBy(v, cs[0], f), c, cs[1..], f);
      assert ([cs[0]] + Insert(c, cs[1..]))[1..] == Insert(c, cs[1..]);
      assert ([c] + cs)[1..] == cs && ([c] + cs[1..])[1..] == cs[1..];
    }
  }

  lemma {:induction false} InOrderAgrees(v: Value, cs: seq<Correction>, f: Field)
    requires Orderly(cs) && InOrder(cs, f)
    ensures ColumnUndo(v, NewestFirst(cs), f) == ColumnUndo(v, Backwards(cs), f)
    ensures ColumnChained(v, NewestFirst(cs), f) <==> ColumnChained(v, Backwards(cs), f)
    decreases |cs|
  {
    if cs != [] {
      var init, last := cs[..|cs| - 1], cs[|cs| - 1];
      assert cs == init + [last];
      NewestFirstMembers(init);
      InsertByColumn(v, last, NewestFirst(init), f);
      InOrderAgrees(UndoneBy(v, last, f), init, f);
      assert ([last] + NewestFirst(init))[1..] == NewestFirst(init);
      assert ([last] + Backwards(init))[1..] == Backwards(init);
    }
  }

  // ---- What a chain determines ------------------------------------------------------------------

  function Is(v: Value, x: Value): int { if v == x then 1 else 0 }

  /** How much more often the column's corrections found `x` than they left it. */
  function Balance(cs: seq<Correction>, f: Field, x: Value): int
    decreases |cs|
  {
    if cs == [] then 0 else Change(cs[0], f, x) + Balance(cs[1..], f, x)
  }

  function Change(c: Correction, f: Field, x: Value): int {
    if f in c.before && f in c.after then Is(c.before[f], x) - Is(c.after[f], x) else 0
  }

  lemma {:induction false} InsertKeepsBalance(c: Correction, cs: seq<Correction>, f: Field, x: Value)
    ensures Balance(Insert(c, cs), f, x) == Balance([c] + cs, f, x)
    decreases |cs|
  {
    if cs != [] && !Newer(c, cs[0]) {
      InsertKeepsBalance(c, cs[1..], f, x);
      assert ([cs[0]] + Insert(c, cs[1..]))[1..] == Insert(c, cs[1..]);
      assert ([c] + cs)[1..] == cs && ([c] + cs[1..])[1..] == cs[1..];
    }
  }

  lemma {:induction false} OrdersBalance(cs: seq<Correction>, f: Field, x: Value)
    ensures Balance(NewestFirst(cs), f, x) == Balance(Backwards(cs), f, x)
  {
    if cs != [] {
      var init, last := cs[..|cs| - 1], cs[|cs| - 1];
      InsertKeepsBalance(last, NewestFirst(init), f, x);
      OrdersBalance(init, f, x);
      assert ([last] + NewestFirst(init))[1..] == NewestFirst(init);
      assert ([last] + Backwards(init))[1..] == Backwards(init);
    }
  }

  lemma {:induction false} ChainBalances(v: Value, cs: seq<Correction>, f: Field, x: Value)
    requires ColumnChained(v, cs, f) && forall c :: c in cs ==> c.before.Keys == c.after.Keys
    ensures Balance(cs, f, x) == Is(ColumnUndo(v, cs, f), x) - Is(v, x)
    decreases |cs|
  {
    if cs != [] {
      assert cs[0] in cs;
      ChainBalances(UndoneBy(v, cs[0], f), cs[1..], f, x);
    }
  }

  /** If the corrections chain in both orders, both leave the same value: whatever the ids, the edits decide it. */
  lemma {:induction false} ChainsAgree(v: Value, cs: seq<Correction>, f: Field)
    requires Orderly(cs) && ColumnChained(v, NewestFirst(cs), f) && ColumnChained(v, Backwards(cs), f)
    ensures ColumnUndo(v, NewestFirst(cs), f) == ColumnUndo(v, Backwards(cs), f)
  {
    var x := ColumnUndo(v, NewestFirst(cs), f);
    NewestFirstMembers(cs);
    BackwardsIndex(cs);
    assert forall c :: c in Backwards(cs) ==> c in cs;
    OrdersBalance(cs, f, x);
    ChainBalances(v, NewestFirst(cs), f, x);
    ChainBalances(v, Backwards(cs), f, x);
  }

  // ---- Before and since a cutoff ----------------------------------------------------------------

  lemma {:induction false} SinceMembers(cs: seq<Correction>, cutoff: int)
    ensures forall x :: x in Since(cs, cutoff) <==> x in cs && x.correctedAt >= cutoff
    ensures forall x :: x in Until(cs, cutoff) <==> x in cs && x.correctedAt < cutoff
  {
    if cs != [] {
      SinceMembers(cs[..|cs| - 1], cutoff);
      assert cs == cs[..|cs| - 1] + [cs[|cs| - 1]];
    }
  }

  lemma {:induction false} NothingSince(cs: seq<Correction>, cutoff: int)
    requires forall c :: c in cs ==> c.correctedAt < cutoff
    ensures Since(cs, cutoff) == []
  {
    if cs != [] { NothingSince(cs[..|cs| - 1], cutoff); }
  }

  lemma {:induction false} AllSince(cs: seq<Correction>, cutoff: int)
    requires forall c :: c in cs ==> c.correctedAt >= cutoff
    ensures Since(cs, cutoff) == cs
  {
    if cs != [] {
      AllSince(cs[..|cs| - 1], cutoff);
      assert cs == cs[..|cs| - 1] + [cs[|cs| - 1]];
    }
  }

  lemma {:induction false} NothingUntil(cs: seq<Correction>, last: Correction, cutoff: int)
    requires Orderly(cs + [last]) && last.correctedAt < cutoff
    ensures Since(cs, cutoff) == []
  {
    forall c | c in cs ensures c.correctedAt < cutoff {
      var i :| 0 <= i < |cs| && cs[i] == c;
      assert (cs + [last])[i] == c && (cs + [last])[|cs|] == last;
    }
    NothingSince(cs, cutoff);
  }

  lemma {:induction false} EndsAreOrderly(a: seq<Correction>, b: seq<Correction>)
    requires Orderly(a + b)
    ensures Orderly(a) && Orderly(b)
  {
    assert (a + b)[..|a|] == a && (a + b)[|a|..] == b;
  }

  lemma {:induction false} SinceEndsTheList(cs: seq<Correction>, cutoff: int)
    requires Orderly(cs)
    ensures cs == Until(cs, cutoff) + Since(cs, cutoff)
  {
    if cs != [] {
      var init, last := cs[..|cs| - 1], cs[|cs| - 1];
      assert cs == init + [last];
      EndsAreOrderly(init, [last]);
      SinceEndsTheList(init, cutoff);
      if last.correctedAt < cutoff { NothingUntil(init, last, cutoff); }
    }
  }

  /** Time does not go back, so what was made since the cutoff is the end of the list. */
  lemma {:induction false} SinceIsSuffix(cs: seq<Correction>, cutoff: int)
    requires Orderly(cs)
    ensures cs == Until(cs, cutoff) + Since(cs, cutoff) && Orderly(Since(cs, cutoff))
  {
    SinceEndsTheList(cs, cutoff);
    EndsAreOrderly(Until(cs, cutoff), Since(cs, cutoff));
  }

  lemma {:induction false} InsertAmongNewer(c: Correction, a: seq<Correction>, b: seq<Correction>, cutoff: int)
    requires c.correctedAt >= cutoff && forall x :: x in b ==> x.correctedAt < cutoff
    ensures Insert(c, a + b) == Insert(c, a) + b
  {
    if a == [] {
      assert a + b == b;
      assert b != [] ==> b[0] in b;
    } else if !Newer(c, a[0]) {
      assert (a + b)[1..] == a[1..] + b;
      InsertAmongNewer(c, a[1..], b, cutoff);
    }
  }

  lemma {:induction false} InsertAmongOlder(c: Correction, a: seq<Correction>, b: seq<Correction>, cutoff: int)
    requires c.correctedAt < cutoff && forall x :: x in a ==> x.correctedAt >= cutoff
    ensures Insert(c, a + b) == a + Insert(c, b)
  {
    if a == [] {
      assert a + b == b;
    } else {
      assert a[0] in a && (a + b)[1..] == a[1..] + b;
      InsertAmongOlder(c, a[1..], b, cutoff);
    }
  }

  lemma {:induction false} NewestFirstSplits(cs: seq<Correction>, cutoff: int)
    ensures NewestFirst(cs) == NewestFirst(Since(cs, cutoff)) + NewestFirst(Until(cs, cutoff))
  {
    if cs != [] {
      var init, last := cs[..|cs| - 1], cs[|cs| - 1];
      var since, until := Since(init, cutoff), Until(init, cutoff);
      NewestFirstSplits(init, cutoff);
      SinceMembers(init, cutoff);
      NewestFirstMembers(since);
      NewestFirstMembers(until);
      if last.correctedAt >= cutoff {
        InsertAmongNewer(last, NewestFirst(since), NewestFirst(until), cutoff);
        assert (since + [last])[..|since|] == since && until + [] == until;
      } else {
        InsertAmongOlder(last, NewestFirst(since), NewestFirst(until), cutoff);
        assert (until + [last])[..|until|] == until && since + [] == since;
      }
    }
  }

  lemma {:induction false} BackwardsConcat(a: seq<Correction>, b: seq<Correction>)
    ensures Backwards(a + b) == Backwards(b) + Backwards(a)
  {
    if b == [] {
      assert a + b == a;
    } else {
      assert (a + b)[..|a + b| - 1] == a + b[..|b| - 1];
      BackwardsConcat(a, b[..|b| - 1]);
    }
  }

  lemma {:induction false} BackwardsSplits(cs: seq<Correction>, cutoff: int)
    requires Orderly(cs)
    ensures Backwards(cs) == Backwards(Since(cs, cutoff)) + Backwards(Until(cs, cutoff))
  {
    SinceIsSuffix(cs, cutoff);
    BackwardsConcat(Until(cs, cutoff), Since(cs, cutoff));
  }

  /** A chain in both orders agrees at every cutoff. */
  lemma {:induction false} ChainsAgreeAt(v: Value, cs: seq<Correction>, f: Field, cutoff: int)
    requires Orderly(cs) && ColumnChained(v, NewestFirst(cs), f) && ColumnChained(v, Backwards(cs), f)
    ensures ColumnUndo(v, NewestFirst(Since(cs, cutoff)), f) == ColumnUndo(v, Backwards(Since(cs, cutoff)), f)
    ensures FirstIsLeast(Since(cs, cutoff), f)
  {
    var since := Since(cs, cutoff);
    NewestFirstSplits(cs, cutoff);
    BackwardsSplits(cs, cutoff);
    SinceIsSuffix(cs, cutoff);
    UndoConcat(v, NewestFirst(since), NewestFirst(Until(cs, cutoff)), f);
    UndoConcat(v, Backwards(since), Backwards(Until(cs, cutoff)), f);
    ChainsAgree(v, since, f);
    OrdersAgreeIff(v, since, f);
  }

  /** Ties in id order: the first correction of the column since any cutoff is the least. */
  lemma {:induction false} InOrderSince(cs: seq<Correction>, f: Field, cutoff: int)
    requires Orderly(cs) && InOrder(cs, f)
    ensures FirstIsLeast(Since(cs, cutoff), f)
  {
    SinceIsSuffix(cs, cutoff);
    SuffixInOrder(Until(cs, cutoff), Since(cs, cutoff), f);
    InOrderIsLeast(Since(cs, cutoff), f);
  }

  lemma {:induction false} SuffixInOrder(until: seq<Correction>, since: seq<Correction>, f: Field)
    requires Orderly(until + since) && InOrder(until + since, f)
    ensures Orderly(since) && InOrder(since, f)
  {
    forall i | 0 <= i < |since| ensures since[i] == (until + since)[|until| + i] {}
  }

  lemma {:induction false} InOrderIsLeast(cs: seq<Correction>, f: Field)
    requires Orderly(cs) && InOrder(cs, f)
    ensures FirstIsLeast(cs, f)
  {
    InOrderAgrees(Null, cs, f);
    OrdersAgreeIff(Null, cs, f);
  }

  // ---- The chain by neighbours ------------------------------------------------------------------

  /** `d` is the next newer correction of the column after `c`. */
  ghost predicate IsNextNewer(cs: seq<Correction>, f: Field, c: Correction, d: Correction) {
    && d in cs && f in d.before && Newer(d, c)
    && forall e :: e in cs && f in e.before && Newer(e, c) && e != d ==> Newer(e, d)
  }

  ghost predicate IsNewest(cs: seq<Correction>, f: Field, c: Correction) {
    forall d :: d in cs && f in d.before ==> !Newer(d, c)
  }

  /** What `c` left in the column is what the next newer one found, and what is there now if there is none. */
  ghost predicate Fits(v: Value, cs: seq<Correction>, f: Field, c: Correction)
    requires f in c.after
  {
    && (IsNewest(cs, f, c) ==> c.after[f] == v)
    && forall d :: IsNextNewer(cs, f, c, d) ==> c.after[f] == d.before[f]
  }

  /** Whether the first `i` listed corrections leave what the next one recorded. */
  ghost predicate FitsAt(v: Value, cs: seq<Correction>, f: Field, i: nat)
    requires i < |cs|
  {
    f in cs[i].after ==> cs[i].after[f] == ColumnUndo(v, cs[..i], f)
  }

  lemma {:induction false} ChainedByIndex(v: Value, cs: seq<Correction>, f: Field)
    ensures ColumnChained(v, cs, f) <==> forall i: nat :: i < |cs| ==> FitsAt(v, cs, f, i)
  {
    if cs != [] {
      var init, last := cs[..|cs| - 1], cs[|cs| - 1];
      assert cs == init + [last];
      UndoConcat(v, init, [last], f);
      assert [last][1..] == [];
      ChainedByIndex(v, init, f);
      forall i: nat | i < |init| ensures FitsAt(v, cs, f, i) == FitsAt(v, init, f, i) {
        assert cs[..i] == init[..i];
      }
      assert FitsAt(v, cs, f, |init|) <==> ColumnChained(ColumnUndo(v, init, f), [last], f);
    }
  }

  /** In a sorted list the corrections before `i` are those newer than it. */
  lemma {:induction false} NewerComeFirst(cs: seq<Correction>, sorted: seq<Correction>, i: nat, d: Correction)
    requires Orderly(cs) && sorted == NewestFirst(cs) && i < |sorted| && d in cs && Newer(d, sorted[i])
    ensures d in sorted[..i]
  {
    NewestFirstMembers(cs);
    NewestFirstFalls(cs);
    var k :| 0 <= k < |sorted| && sorted[k] == d;
    assert k < i;
    assert sorted[..i][k] == d;
  }

  lemma {:induction false} NextNewerIsLast(cs: seq<Correction>, sorted: seq<Correction>, f: Field, i: nat, h: nat)
    requires Orderly(cs) && sorted == NewestFirst(cs) && h < i < |sorted| && f in sorted[h].before
    requires forall k :: h < k < i ==> f !in sorted[k].before
    ensures IsNextNewer(cs, f, sorted[i], sorted[h])
  {
    NewestFirstMembers(cs);
    NewestFirstFalls(cs);
    assert sorted[h] in sorted;
    forall e | e in cs && f in e.before && Newer(e, sorted[i]) && e != sorted[h] ensures Newer(e, sorted[h]) {
      NewerComeFirst(cs, sorted, i, e);
      var k :| 0 <= k < i && sorted[k] == e;
      assert k < h;
    }
  }

  lemma {:induction false} FitsNext(v: Value, cs: seq<Correction>, f: Field, c: Correction, d: Correction)
    requires f in c.after && IsNextNewer(cs, f, c, d)
    ensures Fits(v, cs, f, c) <==> c.after[f] == d.before[f]
  {
    forall e | IsNextNewer(cs, f, c, e) ensures e == d {
      assert e != d ==> Newer(e, d) && Newer(d, e);
    }
  }

  lemma {:induction false} FirstInListIsNewest(cs: seq<Correction>, sorted: seq<Correction>, f: Field, i: nat)
    requires Orderly(cs) && sorted == NewestFirst(cs) && i < |sorted| && !Touched(sorted[..i], f)
    ensures IsNewest(cs, f, sorted[i])
  {
    forall d | d in cs && f in d.before ensures !Newer(d, sorted[i]) {
      if Newer(d, sorted[i]) { NewerComeFirst(cs, sorted, i, d); }
    }
  }

  lemma {:induction false} FitsIffFitsAt(v: Value, cs: seq<Correction>, sorted: seq<Correction>, f: Field, i: nat)
    requires Orderly(cs) && sorted == NewestFirst(cs) && i < |sorted| && f in sorted[i].after
    ensures FitsAt(v, sorted, f, i) <==> Fits(v, cs, f, sorted[i])
  {
    var earlier := sorted[..i];
    if Touched(earlier, f) {
      var h := LastTouching(earlier, f);
      LastDecides(v, earlier, f, h);
      NextNewerIsLast(cs, sorted, f, i, h);
      FitsNext(v, cs, f, sorted[i], sorted[h]);
    } else {
      Untouched(v, earlier, f);
      FirstInListIsNewest(cs, sorted, f, i);
    }
  }

  /** The corrections of a column chain in stored order exactly when each fits its next newer neighbour. */
  lemma {:induction false} ChainedIffFitting(v: Value, cs: seq<Correction>, f: Field)
    requires Orderly(cs)
    ensures ColumnChained(v, NewestFirst(cs), f) <==> forall c :: c in cs && f in c.after ==> Fits(v, cs, f, c)
  {
    var sorted := NewestFirst(cs);
    NewestFirstMembers(cs);
    ChainedByIndex(v, sorted, f);
    forall i: nat | i < |sorted| && f in sorted[i].after
      ensures FitsAt(v, sorted, f, i) <==> Fits(v, cs, f, sorted[i])
    {
      FitsIffFitsAt(v, cs, sorted, f, i);
    }
    forall c | c in cs ensures exists i: nat :: i < |sorted| && sorted[i] == c {
      assert c in sorted;
    }
    assert forall i: nat :: i < |sorted| ==> sorted[i] in sorted;
  }

  // ---- One pair out of order --------------------------------------------------------------------

  lemma {:induction false} InsertsCommute(a: Correction, b: Correction, cs: seq<Correction>)
    requires a.id != b.id
    requires forall c :: c in cs ==> c.id != a.id && c.id != b.id
    requires Falls(cs)
    ensures Insert(a, Insert(b, cs)) == Insert(b, Insert(a, cs))
  {
    if cs != [] {
      assert cs[0] in cs;
      InsertsCommute(a, b, cs[1..]);
    }
  }

  lemma {:induction false} SwapSorts(p: seq<Correction>, a: Correction, b: Correction, q: seq<Correction>)
    requires Orderly(p + [a, b])
    ensures NewestFirst(p + [a, b] + q) == NewestFirst(p + [b, a] + q)
  {
    if q == [] {
      assert p + [a, b] + q == (p + [a]) + [b] && p + [b, a] + q == (p + [b]) + [a];
      assert ((p + [a]) + [b])[..|p| + 1] == p + [a] && ((p + [b]) + [a])[..|p| + 1] == p + [b];
      assert (p + [a])[..|p|] == p && (p + [b])[..|p|] == p;
      NewestFirstMembers(p);
      SwapIds(p, a, b);
      NewestFirstFalls(p);
      InsertsCommute(b, a, NewestFirst(p));
    } else {
      SwapSorts(p, a, b, q[..|q| - 1]);
      assert (p + [a, b] + q)[..|p| + 1 + |q|] == p + [a, b] + q[..|q| - 1];
      assert (p + [b, a] + q)[..|p| + 1 + |q|] == p + [b, a] + q[..|q| - 1];
    }
  }

  lemma {:induction false} SwapIds(p: seq<Correction>, a: Correction, b: Correction)
    requires Orderly(p + [a, b])
    ensures Orderly(p) && a.id != b.id && forall c :: c in p ==> c.id != a.id && c.id != b.id
  {
    var cs := p + [a, b];
    EndsAreOrderly(p, [a, b]);
    assert cs[|p|] == a && cs[|p| + 1] == b;
    forall c | c in p ensures c.id != a.id && c.id != b.id {
      var i :| 0 <= i < |p| && p[i] == c;
      assert cs[i] == c;
    }
  }

  lemma {:induction false} SwapIsOrderly(p: seq<Correction>, a: Correction, b: Correction, q: seq<Correction>)
    requires Orderly(p + [a, b] + q) && a.correctedAt == b.correctedAt
    ensures Orderly(p + [b, a] + q)
  {
    var cs, swapped := p + [a, b] + q, p + [b, a] + q;
    var n := |p|;
    forall i | 0 <= i < |swapped| ensures swapped[i] == cs[if i == n then n + 1 else if i == n + 1 then n else i] {}
    assert forall c :: c in swapped ==> c in cs;
  }

  lemma {:induction false} PairChains(v: Value, x: Correction, y: Correction, f: Field)
    requires x.before.Keys == x.after.Keys && y.before.Keys == y.after.Keys && ColumnChained(v, [y, x], f)
    ensures ColumnChained(v, [x, y], f) <==>
      (f in x.before && f in y.before ==> x.before[f] == x.after[f] == y.after[f])
    ensures ColumnChained(v, [x, y], f) ==> ColumnUndo(v, [x, y], f) == ColumnUndo(v, [y, x], f)
  {
    assert [x, y][1..] == [y] && [y][1..] == [] && [y, x][1..] == [x] && [x][1..] == [];
  }

  lemma {:induction false} BackwardsAround(
      v: Value, p: seq<Correction>, x: Correction, y: Correction, q: seq<Correction>, f: Field)
    ensures var u := ColumnUndo(v, Backwards(q), f);
      ColumnChained(v, Backwards(p + [x, y] + q), f) <==>
        && ColumnChained(v, Backwards(q), f) && ColumnChained(u, [y, x], f)
        && ColumnChained(ColumnUndo(u, [y, x], f), Backwards(p), f)
  {
    BackwardsConcat(p + [x, y], q);
    BackwardsConcat(p, [x, y]);
    assert [x, y][..1] == [x] && [x][..0] == [];
    assert Backwards([x]) == [x] + Backwards([]) == [x];
    assert Backwards([x, y]) == [y] + Backwards([x]) == [y, x];
    UndoConcat(v, Backwards(q), [y, x] + Backwards(p), f);
    UndoConcat(ColumnUndo(v, Backwards(q), f), [y, x], Backwards(p), f);
    assert Backwards(p + [x, y] + q) == Backwards(q) + ([y, x] + Backwards(p));
  }

  /**
   Two edits of one millisecond whose ids are the other way round, and no others: the column chains in stored order
   exactly when one of the edits does not touch it or both left it as it was.
   */
  lemma {:induction false} PairChainedIff(
      v: Value, p: seq<Correction>, a: Correction, b: Correction, q: seq<Correction>, f: Field)
    requires Orderly(p + [a, b] + q) && Orderly(p + [b, a] + q) && InOrder(p + [b, a] + q, f)
    requires ColumnChained(v, Backwards(p + [a, b] + q), f)
    ensures ColumnChained(v, NewestFirst(p + [a, b] + q), f) <==>
      (f in a.before && f in b.before ==> a.before[f] == a.after[f] == b.after[f])
  {
    EndsAreOrderly(p + [a, b], q);
    assert a in p + [a, b] && b in p + [a, b];
    SwapSorts(p, a, b, q);
    InOrderAgrees(v, p + [b, a] + q, f);
    BackwardsAround(v, p, a, b, q, f);
    BackwardsAround(v, p, b, a, q, f);
    PairChains(ColumnUndo(v, Backwards(q), f), a, b, f);
  }
}

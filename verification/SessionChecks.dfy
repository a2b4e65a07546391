/**
 The validators' own readers of past session states: one checks every correction as it goes, one lists the assistance
 modes of an activity.  Both agree with the forward history.
 */
module SessionChecks {
  import opened Base
  import opened Model
  import opened SessionRows
  import opened SessionCorrections
  import opened SessionReplay

  // ---- The validators' readers ------------------------------------------------------------------

  /** The recorded later values are the ones in force. */
  predicate Matches(values: Fields, after: Fields) {
    forall f :: f in after ==> (if f in values then values[f] else Null) == after[f]
  }

  /** A value recorded is in its column, or it is null and there is no such column. */
  lemma {:induction false} MatchingMeans(values: Fields, after: Fields)
    ensures Matches(values, after) <==>
      forall f, x :: (f, x) in after.Items ==> (f, x) in values.Items || (x == Null && f !in values)
  {
    if forall f, x :: (f, x) in after.Items ==> (f, x) in values.Items || (x == Null && f !in values) {
      forall f | f in after ensures (if f in values then values[f] else Null) == after[f] {
        assert (f, after[f]) in after.Items;
      }
    }
  }

  /** The state at a cutoff, checking every correction on the way; nothing if one does not fit. */
  function SnapshotFrom(
      values: Fields, cs: seq<Correction>, cutoff: Option<int>, snapshot: Option<Fields>): Option<Fields>
    decreases |cs|
  {
    if cs == [] then Some(if snapshot.Some? then snapshot.value else values)
    else if !Matches(values, cs[0].after) then None
    else
      var taken := cutoff.Some? && snapshot.None? && cs[0].correctedAt < cutoff.value;
      SnapshotFrom(values + cs[0].before, cs[1..], cutoff, if taken then Some(values) else snapshot)
  }

  function SnapshotAt(s: Session, cutoff: Option<int>): Option<Fields> {
    SnapshotFrom(s.fields, NewestFirst(s.corrections), cutoff, if cutoff.None? then Some(s.fields) else None)
  }

  method SessionAt(sessions: map<Id, Session>, id: Id, cutoff: Option<int>) returns (r: Option<Fields>)
    ensures r == if id in sessions then SnapshotAt(sessions[id], cutoff) else None
  {
    if id !in sessions {
      return None;
    }
    var s := sessions[id];
    var values := s.fields;
    var snapshot := if cutoff.None? then Some(values) else None;
    var corrections := NewestFirst(s.corrections);
    while corrections != []
      invariant SnapshotFrom(values, corrections, cutoff, snapshot) == SnapshotAt(s, cutoff)
      decreases |corrections|
    {
      var c := corrections[0];
      if !Matches(values, c.after) {
        return None;
      }
      if cutoff.Some? && snapshot.None? && c.correctedAt < cutoff.value {
        snapshot := Some(values);
      }
      values := values + c.before;
      corrections := corrections[1..];
    }
    r := Some(if snapshot.Some? then snapshot.value else values);
  }

  /** Every correction, newest first, fits the values that undoing the later ones leaves. */
  ghost predicate Chained(values: Fields, cs: seq<Correction>)
    decreases |cs|
  {
    cs != [] ==> Matches(values, cs[0].after) && Chained(values + cs[0].before, cs[1..])
  }

  lemma {:induction false} AcceptedIffChained(
      values: Fields, cs: seq<Correction>, cutoff: Option<int>, snapshot: Option<Fields>)
    ensures SnapshotFrom(values, cs, cutoff, snapshot).Some? <==> Chained(values, cs)
    ensures Chained(values, cs) && snapshot.Some? ==> SnapshotFrom(values, cs, cutoff, snapshot) == snapshot
    decreases |cs|
  {
    if cs != [] && Matches(values, cs[0].after) {
      var taken := cutoff.Some? && snapshot.None? && cs[0].correctedAt < cutoff.value;
      AcceptedIffChained(values + cs[0].before, cs[1..], cutoff, if taken then Some(values) else snapshot);
    }
  }

  /** Applying what the corrections recorded, oldest first, to what undoing them leaves. */
  function UndoAll(values: Fields, cs: seq<Correction>): Fields
    decreases |cs|
  {
    if cs == [] then values else UndoAll(values + cs[0].before, cs[1..])
  }

  function RedoAll(values: Fields, cs: seq<Correction>): Fields
    decreases |cs|
  {
    if cs == [] then values else RedoAll(values, cs[1..]) + cs[0].after
  }

  /** Acceptance means a forward history: redoing the undone corrections rebuilds the current row. */
  lemma {:induction false} AcceptedHistoriesReplay(values: Fields, cs: seq<Correction>)
    requires Chained(values, cs) && forall c :: c in cs ==> c.before.Keys == c.after.Keys <= values.Keys
    ensures RedoAll(UndoAll(values, cs), cs) == values
    decreases |cs|
  {
    if cs != [] {
      assert cs[0] in cs;
      AcceptedHistoriesReplay(values + cs[0].before, cs[1..]);
      RedoOne(values, cs[0]);
    }
  }

  lemma {:induction false} RedoOne(values: Fields, c: Correction)
    requires Matches(values, c.after) && c.before.Keys == c.after.Keys <= values.Keys
    ensures values + c.before + c.after == values
  {}

  // ---- Chains by column -------------------------------------------------------------------------

  lemma {:induction false} ChainedByColumn(values: Fields, cs: seq<Correction>)
    requires (forall f: Field :: f in values) && forall c :: c in cs ==> c.before.Keys == c.after.Keys
    ensures Chained(values, cs) <==> forall f: Field :: ColumnChained(values[f], cs, f)
    decreases |cs|
  {
    if cs != [] {
      var c := cs[0];
      assert c in cs;
      ChainedByColumn(values + c.before, cs[1..]);
      forall f: Field
        ensures ColumnChained(values[f], cs, f) <==>
          (f in c.after ==> c.after[f] == values[f]) && ColumnChained((values + c.before)[f], cs[1..], f)
      {}
    }
  }

  lemma {:induction false} UndoAllByColumn(values: Fields, cs: seq<Correction>, f: Field)
    requires f in values
    ensures f in UndoAll(values, cs) && UndoAll(values, cs)[f] == ColumnUndo(values[f], cs, f)
    decreases |cs|
  {
    if cs != [] { UndoAllByColumn(values + cs[0].before, cs[1..], f); }
  }

  /** The reader accepts the row at every cutoff or at none. */
  ghost predicate Accepted(s: Session) { Chained(s.fields, NewestFirst(s.corrections)) }

  lemma {:induction false} AcceptedAtEveryCutoff(s: Session, cutoff: Option<int>)
    ensures SnapshotAt(s, cutoff).Some? <==> Accepted(s)
    ensures Accepted(s) && cutoff == None ==> SnapshotAt(s, cutoff) == Some(s.fields)
  {
    AcceptedIffChained(s.fields, NewestFirst(s.corrections), cutoff, if cutoff.None? then Some(s.fields) else None);
  }

  // ---- Lives chain in the order of their edits --------------------------------------------------

  lemma {:induction false} MatchesWhenKept(values: Fields, after: Fields)
    requires values + after == values
    ensures Matches(values, after)
  {
    forall f | f in after ensures f in values && values[f] == after[f] {
      assert (values + after)[f] == after[f];
    }
  }

  lemma {:induction false} StepKeepsChain(s: Session, step: Step)
    requires s.Valid() && InTime(s, step) && Chained(s.fields, Backwards(s.corrections))
    ensures Chained(Stepped(s, step).fields, Backwards(Stepped(s, step).corrections))
  {
    if ReplyTo(s, step) == Done {
      if step.Correct? || step.Delete? {
        CorrectionsRestore(s, step);
        var t := Stepped(s, step);
        var c := t.corrections[|t.corrections| - 1];
        MatchesWhenKept(t.fields, c.after);
        assert Backwards(t.corrections) == [c] + Backwards(s.corrections);
        assert ([c] + Backwards(s.corrections))[1..] == Backwards(s.corrections);
      } else {
        TimerStepShape(s, step);
      }
    }
  }

  lemma {:induction false} LivesAreChained(life: seq<Session>, steps: seq<Step>, n: nat)
    requires IsLife(life, steps) && n < |life|
    ensures Chained(life[n].fields, Backwards(life[n].corrections))
  {
    if n > 0 {
      LivesAreChained(life, steps, n - 1);
      assert LivesAt(life, steps, n - 1);
      StepKeepsChain(life[n - 1], steps[n - 1]);
    }
  }

  /** A valid row whose corrections, in the order they were made, chain to what it holds. */
  ghost predicate Written(s: Session) {
    && (forall f: Field :: f in s.fields) && Orderly(s.corrections)
    && forall f: Field :: ColumnChained(s.fields[f], Backwards(s.corrections), f)
  }

  lemma {:induction false} LivesAreWritten(life: seq<Session>, steps: seq<Step>, n: nat)
    requires IsLife(life, steps) && n < |life|
    ensures life[n].Valid() && Written(life[n])
  {
    LivesAreValid(life, steps, n);
    LivesAreOrderly(life, steps, n);
    LivesAreChained(life, steps, n);
    BackwardsIndex(life[n].corrections);
    assert forall c :: c in Backwards(life[n].corrections) ==> c in life[n].corrections;
    ChainedByColumn(life[n].fields, Backwards(life[n].corrections));
  }

  lemma {:induction false} AcceptedByColumn(s: Session)
    requires (forall f: Field :: f in s.fields) && Orderly(s.corrections)
    ensures Accepted(s) <==> forall f: Field :: ColumnChained(s.fields[f], NewestFirst(s.corrections), f)
  {
    NewestFirstMembers(s.corrections);
    ChainedByColumn(s.fields, NewestFirst(s.corrections));
  }

  // ---- Which lives are accepted -----------------------------------------------------------------

  /** Every correction left, in each of its columns, what the next newer one found or what is there now. */
  ghost predicate EveryFits(s: Session)
    requires forall f: Field :: f in s.fields
  {
    forall c, f: Field :: c in s.corrections && f in c.after ==> Fits(s.fields[f], s.corrections, f, c)
  }

  /** The checking reader accepts a life exactly when every correction fits its next newer neighbour by time and id. */
  lemma {:induction false} AcceptedIffFitting(life: seq<Session>, steps: seq<Step>, n: nat, cutoff: Option<int>)
    requires IsLife(life, steps) && n < |life|
    ensures life[n].Valid() && (SnapshotAt(life[n], cutoff).Some? <==> EveryFits(life[n]))
  {
    var s := life[n];
    LivesAreWritten(life, steps, n);
    AcceptedAtEveryCutoff(s, cutoff);
    AcceptedByColumn(s);
    forall f: Field
      ensures ColumnChained(s.fields[f], NewestFirst(s.corrections), f) <==>
        forall c :: c in s.corrections && f in c.after ==> Fits(s.fields[f], s.corrections, f, c)
    {
      ChainedIffFitting(s.fields[f], s.corrections, f);
    }
  }

  /**
   It accepts every life in which corrections of one millisecond that share a column have ids in the order they were
   made, at any cutoff, and without a cutoff it returns the row.
   */
  lemma {:induction false} WritersAreAccepted(life: seq<Session>, steps: seq<Step>, n: nat, cutoff: Option<int>)
    requires IsLife(life, steps) && n < |life| && forall f: Field :: InOrder(life[n].corrections, f)
    ensures SnapshotAt(life[n], cutoff).Some?
    ensures cutoff == None ==> SnapshotAt(life[n], cutoff) == Some(life[n].fields)
  {
    var s := life[n];
    LivesAreWritten(life, steps, n);
    forall f: Field ensures ColumnChained(s.fields[f], NewestFirst(s.corrections), f) {
      InOrderAgrees(s.fields[f], s.corrections, f);
    }
    AcceptedByColumn(s);
    AcceptedAtEveryCutoff(s, cutoff);
  }

  /** The two edits change nothing in the columns they share. */
  ghost predicate ShareOnlyIdle(a: Correction, b: Correction) {
    forall f :: f in a.before && f in b.before && f in a.after && f in b.after ==>
      a.before[f] == a.after[f] == b.after[f]
  }

  /**
   Two neighbouring edits of one millisecond have their ids the other way round and no other edits that share a column
   do: the life is accepted exactly when the two change nothing in the columns they share.
   */
  lemma {:induction false} ReversedPairIsAcceptedIff(
      life: seq<Session>, steps: seq<Step>, n: nat, cutoff: Option<int>,
      p: seq<Correction>, a: Correction, b: Correction, q: seq<Correction>)
    requires IsLife(life, steps) && n < |life| && life[n].corrections == p + [a, b] + q
    requires a.correctedAt == b.correctedAt && forall f: Field :: InOrder(p + [b, a] + q, f)
    ensures SnapshotAt(life[n], cutoff).Some? <==> ShareOnlyIdle(a, b)
  {
    var s := life[n];
    LivesAreWritten(life, steps, n);
    SwapIsOrderly(p, a, b, q);
    assert s.corrections[|p|] == a && s.corrections[|p| + 1] == b;
    assert a in s.corrections && b in s.corrections;
    forall f: Field
      ensures ColumnChained(s.fields[f], NewestFirst(s.corrections), f) <==>
        (f in a.before && f in b.before ==> a.before[f] == a.after[f] == b.after[f])
    {
      PairChainedIff(s.fields[f], p, a, b, q, f);
    }
    AcceptedByColumn(s);
    AcceptedAtEveryCutoff(s, cutoff);
  }

  // ---- What an accepted life determines ---------------------------------------------------------

  lemma {:induction false} SnapshotSplits(values: Fields, a: seq<Correction>, b: seq<Correction>, cutoff: int)
    requires (forall c :: c in a ==> c.correctedAt >= cutoff) && forall c :: c in b ==> c.correctedAt < cutoff
    requires Chained(values, a + b)
    ensures SnapshotFrom(values, a + b, Some(cutoff), None) == Some(UndoAll(values, a))
    decreases |a|
  {
    if a != [] {
      assert a[0] in a && (a + b)[0] == a[0] && (a + b)[1..] == a[1..] + b;
      SnapshotSplits(values + a[0].before, a[1..], b, cutoff);
    } else if b != [] {
      assert a + b == b && b[0] in b;
      AcceptedIffChained(values + b[0].before, b[1..], Some(cutoff), Some(values));
    } else {
      assert a + b == [];
    }
  }

  lemma {:induction false} SnapshotUndoesSince(s: Session, cutoff: int)
    requires Accepted(s)
    ensures SnapshotAt(s, Some(cutoff)) == Some(UndoAll(s.fields, NewestFirst(Since(s.corrections, cutoff))))
  {
    var since, until := Since(s.corrections, cutoff), Until(s.corrections, cutoff);
    NewestFirstSplits(s.corrections, cutoff);
    SinceMembers(s.corrections, cutoff);
    NewestFirstMembers(since);
    NewestFirstMembers(until);
    SnapshotSplits(s.fields, NewestFirst(since), NewestFirst(until), cutoff);
  }

  lemma {:induction false} AcceptedAgrees(s: Session, cutoff: int, f: Field)
    requires Written(s) && Accepted(s)
    ensures ColumnUndo(s.fields[f], NewestFirst(Since(s.corrections, cutoff)), f)
      == ColumnUndo(s.fields[f], Backwards(Since(s.corrections, cutoff)), f)
    ensures FirstIsLeast(Since(s.corrections, cutoff), f)
  {
    AcceptedByColumn(s);
    ChainsAgreeAt(s.fields[f], s.corrections, f, cutoff);
  }

  lemma {:induction false} StaysFinal(life: seq<Session>, steps: seq<Step>, k: nat, n: nat)
    requires IsLife(life, steps) && k <= n < |life| && !life[k].Open()
    ensures life[n].Valid() && !life[n].Open()
    decreases n
  {
    LivesAreValid(life, steps, n);
    if k < n {
      StaysFinal(life, steps, k, n - 1);
      assert LivesAt(life, steps, n - 1);
    }
  }

  lemma {:induction false} LastEditIsUnwound(s: Session, step: Step, cutoff: int)
    requires s.Valid() && InTime(s, step) && !s.Open() && step.now >= cutoff
    ensures var t := Stepped(s, step);
      UndoAll(t.fields, Backwards(Since(t.corrections, cutoff)))
      == UndoAll(s.fields, Backwards(Since(s.corrections, cutoff)))
  {
    if ReplyTo(s, step) == Done {
      assert step.Correct? || step.Delete?;
      CorrectionsRestore(s, step);
      var t, cs := Stepped(s, step), Since(s.corrections, cutoff);
      var c := t.corrections[|t.corrections| - 1];
      assert Since(t.corrections, cutoff) == cs + [c] && (cs + [c])[..|cs|] == cs;
      assert Backwards(cs + [c]) == [c] + Backwards(cs) && ([c] + Backwards(cs))[1..] == Backwards(cs);
    }
  }

  /** Undoing the edits since the cutoff in their order gives the whole row of a finalised session. */
  lemma {:induction false} EditsUnwind(life: seq<Session>, steps: seq<Step>, k: nat, n: nat, cutoff: int)
    requires IsLife(life, steps) && Splits(steps, k, n, cutoff) && !life[k].Open()
    ensures UndoAll(life[n].fields, Backwards(Since(life[n].corrections, cutoff))) == life[k].fields
    decreases n
  {
    if n == k {
      LivesAreValid(life, steps, k);
      EarlierStepsSettle(life, steps, k, cutoff);
      NothingSince(life[k].corrections, cutoff);
    } else {
      EditsUnwind(life, steps, k, n - 1, cutoff);
      StaysFinal(life, steps, k, n - 1);
      assert LivesAt(life, steps, n - 1);
      LastEditIsUnwound(life[n - 1], steps[n - 1], cutoff);
    }
  }

  lemma {:induction false} SameColumns(a: Fields, b: Fields)
    requires forall f: Field :: f in a && f in b && a[f] == b[f]
    ensures a == b
  {}

  /**
   The checking reader never accepts a wrong past: in every life, whatever the ids, it rejects or finds every column of
   a finalised session as it was just before the cutoff.
   */
  lemma {:induction false} CheckedReplayIsForwardHistory(
      life: seq<Session>, steps: seq<Step>, k: nat, n: nat, cutoff: int)
    requires IsLife(life, steps) && Splits(steps, k, n, cutoff) && !life[k].Open()
    ensures SnapshotAt(life[n], Some(cutoff)) in {None, Some(life[k].fields)}
  {
    var s := life[n];
    LivesAreWritten(life, steps, n);
    LivesAreValid(life, steps, k);
    AcceptedAtEveryCutoff(s, Some(cutoff));
    if Accepted(s) {
      var since := Since(s.corrections, cutoff);
      SnapshotUndoesSince(s, cutoff);
      EditsUnwind(life, steps, k, n, cutoff);
      forall f: Field
        ensures f in UndoAll(s.fields, NewestFirst(since))
        ensures UndoAll(s.fields, NewestFirst(since))[f] == life[k].fields[f]
      {
        UndoAllByColumn(s.fields, NewestFirst(since), f);
        UndoAllByColumn(s.fields, Backwards(since), f);
        AcceptedAgrees(s, cutoff, f);
      }
      SameColumns(UndoAll(s.fields, NewestFirst(since)), life[k].fields);
    }
  }

  /** Where the checking reader accepts a life, the view of it is right at every cutoff. */
  lemma {:induction false} AcceptedViewsAreRight(
      life: seq<Session>, steps: seq<Step>, k: nat, n: nat, cutoff: int, checked: Option<int>)
    requires IsLife(life, steps) && Splits(steps, k, n, cutoff) && SnapshotAt(life[n], checked).Some?
    ensures life[n].Valid() && life[k].Valid() && ActualityAt(life[n], cutoff) == Known(life[k], cutoff)
  {
    LivesAreWritten(life, steps, n);
    AcceptedAtEveryCutoff(life[n], checked);
    forall f | f in VIEW_FIELDS ensures FirstIsLeast(Since(life[n].corrections, cutoff), f) {
      AcceptedAgrees(life[n], cutoff, f);
    }
    ViewIsForwardHistoryIff(life, steps, k, n, cutoff);
  }

  // ---- A life the reader rejects ----------------------------------------------------------------

  function ModeEdit(now: int, id: Id, mode: Value): Step { Step.Correct(now, id, map[AssistanceMode := mode], Null) }

  lemma {:induction false} ModeEditRecords(s: Session, now: int, id: Id, mode: Value)
    requires s.Valid() && !s.Open() && !s.Deleted() && mode != s.fields[AssistanceMode]
    requires forall c :: c in s.corrections ==> c.correctedAt <= now && c.id != id
    ensures var step := ModeEdit(now, id, mode); var t := Stepped(s, step);
      && InTime(s, step) && t.Valid() && !t.Open() && !t.Deleted() && t.fields == s.fields[AssistanceMode := mode]
      && t.corrections == s.corrections
        + [Correction(id, now, map[AssistanceMode := s.fields[AssistanceMode]], map[AssistanceMode := mode])]
  {
    var step := ModeEdit(now, id, mode);
    var changes := Changes(s, step.payload);
    assert changes == map[AssistanceMode := mode];
    assert AssistanceMode in changes;
    assert changes.Keys * ACTIVITY_OWNED == {} && Audited(changes) == {AssistanceMode};
    assert CorrectedFields(s, changes, Null) == s.fields[AssistanceMode := mode];
    assert Restrict(s.fields, {AssistanceMode}) == map[AssistanceMode := s.fields[AssistanceMode]];
    assert Restrict(s.fields[AssistanceMode := mode], {AssistanceMode}) == map[AssistanceMode := mode];
    StepKeepsValid(s, step);
  }

  /**
   Two edits of a finalised session in one millisecond, the ids the other way round: a life in which the checking reader
   rejects the session at every cutoff and the view finds the value between the two.
   */
  lemma {:induction false} ReversedEditsAreRejected(s: Session, now: int, first: Id, second: Id, x: Value, y: Value)
    returns (life: seq<Session>, steps: seq<Step>)
    requires s.Valid() && !s.Open() && !s.Deleted() && s.corrections == [] && second < first
    requires s.fields[AssistanceMode] != x && x != y
    ensures steps == [ModeEdit(now, first, x), ModeEdit(now, second, y)] && IsLife(life, steps) && life[0] == s
    ensures forall cutoff :: SnapshotAt(life[2], cutoff) == None
    ensures life[2].Valid() && forall cutoff :: cutoff <= now ==> Recovered(life[2], cutoff)[AssistanceMode] == x
  {
    steps := [ModeEdit(now, first, x), ModeEdit(now, second, y)];
    var t := Stepped(s, steps[0]);
    ModeEditRecords(s, now, first, x);
    var u := Stepped(t, steps[1]);
    ModeEditRecords(t, now, second, y);
    life := [s, t, u];
    assert LivesAt(life, steps, 0) && LivesAt(life, steps, 1);
    var a, b := t.corrections[0], u.corrections[1];
    PairIsReversed(life, steps, a, b);
    LivesAreOrderly(life, steps, 2);
    LeastOfTwo(u.corrections, a, b, AssistanceMode);
    forall cutoff | cutoff <= now ensures Recovered(u, cutoff)[AssistanceMode] == x {
      AllSince(u.corrections, cutoff);
      LeastIsRecovered(u, cutoff, AssistanceMode, b);
    }
  }

  lemma {:induction false} LeastOfTwo(cs: seq<Correction>, a: Correction, b: Correction, f: Field)
    requires cs == [a, b] && a.correctedAt == b.correctedAt && b.id < a.id && f in b.before
    ensures IsLeast(cs, f, b)
  {
    assert cs[1] == b;
  }

  lemma {:induction false} PairIsReversed(life: seq<Session>, steps: seq<Step>, a: Correction, b: Correction)
    requires IsLife(life, steps) && |life| == 3 && life[2].corrections == [a, b]
    requires a.correctedAt == b.correctedAt && b.id < a.id && !ShareOnlyIdle(a, b)
    ensures forall cutoff :: SnapshotAt(life[2], cutoff) == None
  {
    assert [] + [a, b] + [] == [a, b] && [] + [b, a] + [] == [b, a];
    forall cutoff ensures SnapshotAt(life[2], cutoff) == None {
      ReversedPairIsAcceptedIff(life, steps, 2, cutoff, [], a, b, []);
    }
  }

  // ---- The assistance modes of an activity ------------------------------------------------------

  const MODE_FIELDS: set<Field> := {ActivityId, AssistanceMode, EndedAt, Outcome}

  function ModeValues(s: Session, cutoff: int): (r: Fields)
    requires s.Valid()
    ensures Has(r, MODE_FIELDS)
  {
    var cs := NewestFirst(Since(s.corrections, cutoff));
    UndoKeepsKeys(Restrict(s.fields, MODE_FIELDS), cs);
    Undo(Restrict(s.fields, MODE_FIELDS), cs)
  }

  /** The mode a session adds to the activity's list. */
  function ModeAt(s: Session, activity: Value, cutoff: int, occurredAt: int): Option<Value>
    requires s.Valid()
  {
    var values := ModeValues(s, cutoff);
    if s.createdAt < cutoff && values[ActivityId] == activity && values[EndedAt].Number? && values[EndedAt].n < cutoff
      && values[EndedAt].n <= occurredAt && (values[Outcome] == Text("completed") || values[Outcome] == Text("partial"))
      && !DeletedBefore(s, cutoff)
    then Some(values[AssistanceMode]) else None
  }

  lemma {:induction false} UndoCommutes(values: Fields, cs: seq<Correction>, keys: set<Field>)
    ensures Undo(Restrict(values, keys), cs) == Restrict(Undo(values, cs), keys)
    decreases |cs|
  {
    if cs != [] {
      assert UndoOne(Restrict(values, keys), cs[0].before) == Restrict(UndoOne(values, cs[0].before), keys);
      UndoCommutes(UndoOne(values, cs[0].before), cs[1..], keys);
    }
  }

  /**
   The second reader agrees with the view on every session whose recovered duration counts; on others the view says
   nothing.
   */
  lemma {:induction false} ModesAgreeWithTheView(s: Session, activity: Value, cutoff: int, occurredAt: int)
    requires s.Valid()
    ensures var d := Recovered(s, cutoff)[DurationMs]; var view := ActualityAt(s, cutoff);
      if d.Number? && d.n >= 0
      then ModeAt(s, activity, cutoff, occurredAt)
        == (if view.Some? && view.value.activityId == activity && view.value.endedAt <= occurredAt
            then Some(view.value.assistanceMode) else None)
      else view == None
  {
    var cs := NewestFirst(Since(s.corrections, cutoff));
    UndoCommutes(s.fields, cs, VIEW_FIELDS);
    UndoCommutes(s.fields, cs, MODE_FIELDS);
    forall f | f in MODE_FIELDS ensures ModeValues(s, cutoff)[f] == Recovered(s, cutoff)[f] {
      assert f in VIEW_FIELDS;
    }
  }

  /** All the modes, one for each session that counts. */
  function ModesOf(sessions: seq<Session>, activity: Value, cutoff: int, occurredAt: int): multiset<Value>
    requires forall i :: 0 <= i < |sessions| ==> sessions[i].Valid()
  {
    if sessions == [] then multiset{}
    else
      var mode := ModeAt(sessions[|sessions| - 1], activity, cutoff, occurredAt);
      ModesOf(sessions[..|sessions| - 1], activity, cutoff, occurredAt)
        + (if mode.Some? then multiset{mode.value} else multiset{})
  }

  method ProjectedMode(s: Session, activity: Value, cutoff: int, occurredAt: int) returns (mode: Option<Value>)
    requires s.Valid()
    ensures mode == ModeAt(s, activity, cutoff, occurredAt)
  {
    if s.createdAt >= cutoff {
      return None;
    }
    var values := Restrict(s.fields, MODE_FIELDS);
    var corrections := NewestFirst(Since(s.corrections, cutoff));
    while corrections != []
      invariant Undo(values, corrections) == ModeValues(s, cutoff)
      decreases |corrections|
    {
      values := UndoKeys(values, corrections[0].before);
      corrections := corrections[1..];
    }
    if values[ActivityId] == activity && values[EndedAt].Number? && values[EndedAt].n < cutoff
      && values[EndedAt].n <= occurredAt && (values[Outcome] == Text("completed") || values[Outcome] == Text("partial"))
      && !DeletedBefore(s, cutoff)
    {
      return Some(values[AssistanceMode]);
    }
    mode := None;
  }

  method ProjectSessionAssistanceModes(
      sessions: seq<Session>, activity: Value, cutoff: int, occurredAt: int) returns (modes: seq<Value>)
    requires forall i :: 0 <= i < |sessions| ==> sessions[i].Valid()
    ensures multiset(modes) == ModesOf(sessions, activity, cutoff, occurredAt)
  {
    modes := [];
    for i := 0 to |sessions|
      invariant multiset(modes) == ModesOf(sessions[..i], activity, cutoff, occurredAt)
    {
      assert sessions[..i + 1][..i] == sessions[..i];
      var mode := ProjectedMode(sessions[i], activity, cutoff, occurredAt);
      if mode.Some? {
        modes := modes + [mode.value];
      }
    }
    assert sessions[..|sessions|] == sessions;
  }
}

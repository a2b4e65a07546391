/**
 Recovering an earlier state of a session by undoing its corrections, newest first, and why that equals reading the
 session at the earlier time.
 */
module SessionReplay {
  import opened Base
  import opened Model
  import opened SessionRows
  import opened SessionCorrections

  // ---- Reading the past -------------------------------------------------------------------------

  function UndoOne(values: Fields, before: Fields): Fields {
    map f | f in values :: if f in before then before[f] else values[f]
  }

  function Undo(values: Fields, cs: seq<Correction>): Fields
    decreases |cs|
  {
    if cs == [] then values else Undo(UndoOne(values, cs[0].before), cs[1..])
  }

  datatype Actuality = Actuality(
    activityId: Value, assistanceMode: Value, startedAt: Value, endedAt: int, durationMs: int, outcome: Value,
    recordedAt: int)

  predicate Has(values: Fields, keys: set<Field>) { keys <= values.Keys }

  /** What a finalised session shows; nothing if it has not ended before the cutoff or its outcome does not count. */
  function Shown(values: Fields, createdAt: int, cutoff: int): Option<Actuality>
    requires Has(values, VIEW_FIELDS)
  {
    if values[EndedAt].Number? && values[EndedAt].n < cutoff && values[DurationMs].Number? && values[DurationMs].n >= 0
      && (values[Outcome] == Text("completed") || values[Outcome] == Text("partial"))
    then Some(Actuality(
      values[ActivityId], values[AssistanceMode], values[StartedAt], values[EndedAt].n, values[DurationMs].n,
      values[Outcome], createdAt))
    else None
  }

  predicate DeletedBefore(s: Session, cutoff: int) {
    TombstonedAt in s.fields && s.fields[TombstonedAt].Number? && s.fields[TombstonedAt].n < cutoff
  }

  lemma {:induction false} UndoKeepsKeys(values: Fields, cs: seq<Correction>)
    ensures Undo(values, cs).Keys == values.Keys
    decreases |cs|
  {
    if cs != [] { UndoKeepsKeys(UndoOne(values, cs[0].before), cs[1..]); }
  }

  function Recovered(s: Session, cutoff: int): (r: Fields)
    requires s.Valid()
    ensures Has(r, VIEW_FIELDS)
  {
    var cs := NewestFirst(Since(s.corrections, cutoff));
    UndoKeepsKeys(Restrict(s.fields, VIEW_FIELDS), cs);
    Undo(Restrict(s.fields, VIEW_FIELDS), cs)
  }

  function ActualityAt(s: Session, cutoff: int): Option<Actuality>
    requires s.Valid()
  {
    if s.createdAt >= cutoff || DeletedBefore(s, cutoff) then None else Shown(Recovered(s, cutoff), s.createdAt, cutoff)
  }

  /** What a reader living at the cutoff sees of the current row. */
  function Known(s: Session, cutoff: int): Option<Actuality>
    requires s.Valid()
  {
    if s.createdAt >= cutoff || s.Deleted() then None else Shown(Restrict(s.fields, VIEW_FIELDS), s.createdAt, cutoff)
  }

  method SessionActualityAsOf(sessions: map<Id, Session>, id: Id, cutoff: int) returns (r: Option<Actuality>)
    requires forall i :: i in sessions ==> sessions[i].Valid()
    ensures r == if id in sessions then ActualityAt(sessions[id], cutoff) else None
  {
    if id !in sessions || sessions[id].createdAt >= cutoff {
      return None;
    }
    var s := sessions[id];
    var values := Restrict(s.fields, VIEW_FIELDS);
    var corrections := NewestFirst(Since(s.corrections, cutoff));
    while corrections != []
      invariant Undo(values, corrections) == Recovered(s, cutoff)
      decreases |corrections|
    {
      values := UndoKeys(values, corrections[0].before);
      corrections := corrections[1..];
    }
    if DeletedBefore(s, cutoff) {
      return None;
    }
    r := Shown(values, s.createdAt, cutoff);
  }

  method UndoKeys(values: Fields, before: Fields) returns (r: Fields)
    ensures r == UndoOne(values, before)
  {
    r := values;
    var keys := before.Keys;
    while keys != {}
      invariant r.Keys == values.Keys && keys <= before.Keys
      invariant forall f :: f in r ==> r[f] == if f in before && f !in keys then before[f] else values[f]
      decreases keys
    {
      var key :| key in keys;
      keys := keys - {key};
      if key in r {
        r := r[key := before[key]];
      }
    }
  }

  // ---- Later steps are invisible ----------------------------------------------------------------

  /** Nothing in the session is dated after `now`, and a correction made now has an id of its own. */
  ghost predicate InTime(s: Session, step: Step) {
    && (forall c :: c in s.corrections ==> c.correctedAt <= step.now)
    && (step.Correct? || step.Delete? ==> forall c :: c in s.corrections ==> c.id != step.id)
    && (step.Correct? ==> step.payload.Keys <= CORRECTABLE)
    && (step.Delete? ==> step.reason != Null)
  }

  lemma {:induction false} StepKeepsValid(s: Session, step: Step)
    requires s.Valid() && InTime(s, step)
    ensures Stepped(s, step).Valid()
  {
    if ReplyTo(s, step) == Done {
      match step
      case Pause(_) => {}
      case Resume(_) => {}
      case Complete(_, _, _, _, _) => {}
      case Cancel(_, _) => {}
      case Correct(_, _, payload, activity) => CorrectedShape(s, Changes(s, payload), activity);
      case Delete(_, _, _) => {}
    }
  }

  /** A correction leaves the start and the deletion columns alone, and every column keeps a value. */
  lemma {:induction false} CorrectedShape(s: Session, changes: Fields, activity: Value)
    requires s.Valid() && changes.Keys <= CORRECTABLE && (DurationMs in changes ==> changes[DurationMs].Number?)
    ensures var fields := CorrectedFields(s, changes, activity);
      && (forall f: Field :: f in fields)
      && fields[StartedAt] == s.fields[StartedAt] && fields[TombstonedAt] == s.fields[TombstonedAt]
      && fields[AccumulatedMs].Number?
  {
    assert StartedAt !in CORRECTABLE && TombstonedAt !in CORRECTABLE && AccumulatedMs !in CORRECTABLE;
  }

  /** Undoing what a correction recorded gives back every column. */
  lemma {:induction false} CorrectionsRestore(s: Session, step: Step)
    requires s.Valid() && InTime(s, step) && (step.Correct? || step.Delete?) && ReplyTo(s, step) == Done
    ensures var t := Stepped(s, step);
      && t.corrections != [] && t.corrections[..|t.corrections| - 1] == s.corrections
      && var c := t.corrections[|t.corrections| - 1];
      && c.correctedAt == step.now && c.id == step.id
      && t.fields + c.before == s.fields && t.fields + c.after == t.fields
      && c.before.Keys == c.after.Keys
  {}

  lemma {:induction false} OverwriteIsUndone(current: Fields, earlier: Fields, c: Correction)
    requires Has(current, VIEW_FIELDS) && current + c.before == earlier && current.Keys == earlier.Keys
    ensures UndoOne(Restrict(current, VIEW_FIELDS), c.before) == Restrict(earlier, VIEW_FIELDS)
  {
    forall f | f in VIEW_FIELDS ensures (if f in c.before then c.before[f] else current[f]) == earlier[f] {
      assert (current + c.before)[f] == earlier[f];
    }
  }

  lemma {:induction false} UndoByColumn(values: Fields, cs: seq<Correction>, f: Field)
    requires f in values
    ensures f in Undo(values, cs) && Undo(values, cs)[f] == ColumnUndo(values[f], cs, f)
    decreases |cs|
  {
    if cs != [] { UndoByColumn(UndoOne(values, cs[0].before), cs[1..], f); }
  }

  // ---- Undoing in the order of the edits --------------------------------------------------------

  /** What undoing the edits since the cutoff, the last one made first, leaves in the view's columns. */
  function Earlier(s: Session, cutoff: int): (r: Fields)
    requires s.Valid()
    ensures Has(r, VIEW_FIELDS)
  {
    var cs := Backwards(Since(s.corrections, cutoff));
    UndoKeepsKeys(Restrict(s.fields, VIEW_FIELDS), cs);
    Undo(Restrict(s.fields, VIEW_FIELDS), cs)
  }

  function EarlierActuality(s: Session, cutoff: int): Option<Actuality>
    requires s.Valid()
  {
    if s.createdAt >= cutoff || DeletedBefore(s, cutoff) then None else Shown(Earlier(s, cutoff), s.createdAt, cutoff)
  }

  lemma {:induction false} LastEditIsUndone(
      current: Fields, earlier: Fields, cs: seq<Correction>, c: Correction, cutoff: int)
    requires Has(current, VIEW_FIELDS) && current + c.before == earlier && current.Keys == earlier.Keys
    requires c.correctedAt >= cutoff
    ensures Undo(Restrict(current, VIEW_FIELDS), Backwards(Since(cs + [c], cutoff)))
      == Undo(Restrict(earlier, VIEW_FIELDS), Backwards(Since(cs, cutoff)))
  {
    var older := Since(cs, cutoff);
    assert (cs + [c])[..|cs|] == cs && (older + [c])[..|older|] == older;
    assert Backwards(older + [c]) == [c] + Backwards(older);
    OverwriteIsUndone(current, earlier, c);
    assert ([c] + Backwards(older))[1..] == Backwards(older);
  }

  lemma {:induction false} CorrectionKeepsDeletion(s: Session, step: Step, cutoff: int)
    requires s.Valid() && InTime(s, step) && (step.Correct? || step.Delete?) && ReplyTo(s, step) == Done
    requires step.now >= cutoff
    ensures !DeletedBefore(Stepped(s, step), cutoff) && !DeletedBefore(s, cutoff)
    ensures Stepped(s, step).createdAt == s.createdAt
  {}

  /**
   Before it ends a session shows nothing, and at an instant no earlier than the cutoff it has not ended for the
   cutoff.
   */
  lemma {:induction false} UnendedShowsNothing(s: Session, cutoff: int)
    requires s.Valid() && s.corrections == []
    requires (s.fields[EndedAt] == Null || (s.fields[EndedAt].Number? && s.fields[EndedAt].n >= cutoff))
    ensures ActualityAt(s, cutoff) == EarlierActuality(s, cutoff) == None
  {
    assert EndedAt in VIEW_FIELDS;
    assert Restrict(s.fields, VIEW_FIELDS)[EndedAt] == s.fields[EndedAt];
  }

  lemma {:induction false} TimerStepShape(s: Session, step: Step)
    requires s.Valid() && !step.Correct? && !step.Delete? && ReplyTo(s, step) == Done
    ensures s.Open() && Stepped(s, step).corrections == []
    ensures Stepped(s, step).fields[EndedAt] == if step.Complete? || step.Cancel? then Number(step.now) else Null
  {}

  /** A step at the cutoff or later is undone first, if the edits are undone in their order. */
  lemma {:induction false} LaterStepsKeepEarlier(s: Session, step: Step, cutoff: int)
    requires s.Valid() && InTime(s, step) && step.now >= cutoff
    ensures Stepped(s, step).Valid() && EarlierActuality(Stepped(s, step), cutoff) == EarlierActuality(s, cutoff)
  {
    StepKeepsValid(s, step);
    if ReplyTo(s, step) == Done {
      if step.Correct? || step.Delete? {
        CorrectionsRestore(s, step);
        var t := Stepped(s, step);
        var c := t.corrections[|t.corrections| - 1];
        assert t.corrections == s.corrections + [c];
        LastEditIsUndone(t.fields, s.fields, s.corrections, c, cutoff);
        CorrectionKeepsDeletion(s, step, cutoff);
      } else {
        TimerStepShape(s, step);
        UnendedShowsNothing(s, cutoff);
        UnendedShowsNothing(Stepped(s, step), cutoff);
      }
    }
  }

  /** In the column, the correction comes before the least one in stored order and found another value. */
  ghost predicate Overtakes(cs: seq<Correction>, c: Correction, f: Field) {
    exists d :: IsLeast(cs, f, d) && f in c.before && Newer(d, c) && d.before[f] != c.before[f]
  }

  lemma {:induction false} OvertakesTheLeast(cs: seq<Correction>, c: Correction, f: Field, d: Correction)
    requires f in c.before && IsLeast(cs, f, d)
    ensures Overtakes(cs, c, f) <==> Newer(d, c) && d.before[f] != c.before[f]
  {
    forall e | IsLeast(cs, f, e) ensures e == d {
      assert e != d ==> Newer(e, d) && Newer(d, e);
    }
  }

  lemma {:induction false} TouchedColumn(
      v: Value, u: Value, cs: seq<Correction>, c: Correction, f: Field)
    requires Orderly(cs + [c]) && Orderly(cs) && f in c.before && Touched(cs, f)
    ensures ColumnUndo(v, NewestFirst(cs + [c]), f) == ColumnUndo(u, NewestFirst(cs), f) <==> !Overtakes(cs, c, f)
  {
    var d := LeastExists(cs, f);
    OvertakesTheLeast(cs, c, f, d);
    LeastDecides(u, cs, f, d);
    assert (cs + [c])[..|cs|] == cs;
    var e := if Newer(d, c) then c else d;
    LeastOfLonger(cs, c, f, d);
    LeastDecides(v, cs + [c], f, e);
  }

  lemma {:induction false} LeastOfLonger(cs: seq<Correction>, c: Correction, f: Field, d: Correction)
    requires Orderly(cs + [c]) && f in c.before && IsLeast(cs, f, d)
    ensures IsLeast(cs + [c], f, if Newer(d, c) then c else d)
  {
    var k :| 0 <= k < |cs| && cs[k] == d;
    assert (cs + [c])[k] == d && (cs + [c])[|cs|] == c;
  }

  lemma {:induction false} NewCorrectionInColumn(
      v: Value, u: Value, cs: seq<Correction>, c: Correction, f: Field)
    requires Orderly(cs + [c]) && u == UndoneBy(v, c, f)
    ensures ColumnUndo(v, NewestFirst(cs + [c]), f) == ColumnUndo(u, NewestFirst(cs), f) <==> !Overtakes(cs, c, f)
  {
    EndsAreOrderly(cs, [c]);
    if f in c.before && Touched(cs, f) {
      TouchedColumn(v, u, cs, c, f);
    } else {
      assert (cs + [c])[..|cs|] == cs && c in cs + [c];
      NewestFirstMembers(cs);
      InsertByColumn(v, c, NewestFirst(cs), f);
      assert ([c] + NewestFirst(cs))[1..] == NewestFirst(cs);
      assert forall d :: IsLeast(cs, f, d) ==> Touched(cs, f);
    }
  }

  /** The step is a correction that overtakes one of the same millisecond in a column the view shows. */
  ghost predicate Overtaking(s: Session, step: Step, cutoff: int)
    requires s.Valid()
  {
    && (step.Correct? || step.Delete?) && ReplyTo(s, step) == Done
    && var t := Stepped(s, step);
       t.corrections != []
       && exists f :: f in VIEW_FIELDS && Overtakes(Since(s.corrections, cutoff), t.corrections[|t.corrections| - 1], f)
  }

  lemma {:induction false} RecoveredByColumn(s: Session, cutoff: int, f: Field)
    requires s.Valid() && f in VIEW_FIELDS
    ensures Recovered(s, cutoff)[f] == ColumnUndo(s.fields[f], NewestFirst(Since(s.corrections, cutoff)), f)
    ensures Earlier(s, cutoff)[f] == ColumnUndo(s.fields[f], Backwards(Since(s.corrections, cutoff)), f)
    ensures Recovered(s, cutoff).Keys == Earlier(s, cutoff).Keys == VIEW_FIELDS
  {
    var values, cs := Restrict(s.fields, VIEW_FIELDS), Since(s.corrections, cutoff);
    UndoByColumn(values, NewestFirst(cs), f);
    UndoByColumn(values, Backwards(cs), f);
    UndoKeepsKeys(values, NewestFirst(cs));
    UndoKeepsKeys(values, Backwards(cs));
    assert values.Keys == VIEW_FIELDS;
  }

  /** `t` is `s` after one more correction. */
  ghost predicate Corrects(s: Session, t: Session, c: Correction) {
    && s.Valid() && t.Valid() && t.corrections == s.corrections + [c]
    && t.fields + c.before == s.fields && Orderly(t.corrections)
  }

  lemma {:induction false} StepCorrects(s: Session, step: Step) returns (c: Correction)
    requires s.Valid() && InTime(s, step) && (step.Correct? || step.Delete?) && ReplyTo(s, step) == Done
    requires Orderly(s.corrections)
    ensures Corrects(s, Stepped(s, step), c) && c.correctedAt == step.now
  {
    StepKeepsValid(s, step);
    CorrectionsRestore(s, step);
    StepIsOrderly(s, step);
    var t := Stepped(s, step);
    c := t.corrections[|t.corrections| - 1];
    assert t.corrections == s.corrections + [c];
  }

  lemma {:induction false} CorrectionInColumn(s: Session, t: Session, c: Correction, cutoff: int, f: Field)
    requires Corrects(s, t, c) && c.correctedAt >= cutoff && f in VIEW_FIELDS
    ensures Recovered(t, cutoff)[f] == Recovered(s, cutoff)[f] <==> !Overtakes(Since(s.corrections, cutoff), c, f)
  {
    SinceGrows(s.corrections, c, cutoff);
    RecoveredByColumn(s, cutoff, f);
    RecoveredByColumn(t, cutoff, f);
    UndoneGives(s.fields, t.fields, c, f);
    NewCorrectionInColumn(t.fields[f], s.fields[f], Since(s.corrections, cutoff), c, f);
  }

  lemma {:induction false} UndoneGives(earlier: Fields, current: Fields, c: Correction, f: Field)
    requires current + c.before == earlier && f in current && f in earlier
    ensures UndoneBy(current[f], c, f) == earlier[f]
  {
    assert (current + c.before)[f] == earlier[f];
  }

  lemma {:induction false} SinceGrows(cs: seq<Correction>, c: Correction, cutoff: int)
    requires Orderly(cs + [c]) && c.correctedAt >= cutoff
    ensures Since(cs + [c], cutoff) == Since(cs, cutoff) + [c] && Orderly(Since(cs, cutoff) + [c])
  {
    assert (cs + [c])[..|cs|] == cs;
    SinceIsSuffix(cs + [c], cutoff);
  }

  lemma {:induction false} CorrectionIsInvisibleIff(s: Session, t: Session, c: Correction, cutoff: int)
    requires Corrects(s, t, c) && c.correctedAt >= cutoff
    ensures Recovered(t, cutoff) == Recovered(s, cutoff) <==>
      forall f :: f in VIEW_FIELDS ==> !Overtakes(Since(s.corrections, cutoff), c, f)
  {
    forall f | f in VIEW_FIELDS
      ensures Recovered(t, cutoff)[f] == Recovered(s, cutoff)[f] <==> !Overtakes(Since(s.corrections, cutoff), c, f)
    {
      CorrectionInColumn(s, t, c, cutoff, f);
    }
    RecoveredByColumn(s, cutoff, EndedAt);
    RecoveredByColumn(t, cutoff, EndedAt);
    SameByColumn(Recovered(t, cutoff), Recovered(s, cutoff));
  }

  lemma {:induction false} SameByColumn(a: Fields, b: Fields)
    requires a.Keys == b.Keys == VIEW_FIELDS
    ensures a == b <==> forall f :: f in VIEW_FIELDS ==> a[f] == b[f]
  {}

  lemma {:induction false} LaterCorrectionIsInvisibleIff(s: Session, step: Step, cutoff: int)
    requires s.Valid() && InTime(s, step) && (step.Correct? || step.Delete?) && ReplyTo(s, step) == Done
    requires step.now >= cutoff && Orderly(s.corrections)
    ensures Stepped(s, step).Valid()
    ensures Recovered(Stepped(s, step), cutoff) == Recovered(s, cutoff) <==> !Overtaking(s, step, cutoff)
  {
    var c := StepCorrects(s, step);
    CorrectionIsInvisibleIff(s, Stepped(s, step), c, cutoff);
  }

  /**
   A step at the cutoff or later does not change what the cutoff sees, unless it is a correction that overtakes one of
   the same millisecond; that is exactly when what is recovered changes.
   */
  lemma {:induction false} LaterStepsAreInvisible(s: Session, step: Step, cutoff: int)
    requires s.Valid() && InTime(s, step) && Orderly(s.corrections) && step.now >= cutoff
    ensures Stepped(s, step).Valid()
    ensures !Overtaking(s, step, cutoff) ==> ActualityAt(Stepped(s, step), cutoff) == ActualityAt(s, cutoff)
    ensures (step.Correct? || step.Delete?) ==>
      (Recovered(Stepped(s, step), cutoff) == Recovered(s, cutoff) <==> !Overtaking(s, step, cutoff))
  {
    StepKeepsValid(s, step);
    if ReplyTo(s, step) == Done {
      if step.Correct? || step.Delete? {
        LaterCorrectionIsInvisibleIff(s, step, cutoff);
        CorrectionKeepsDeletion(s, step, cutoff);
      } else {
        TimerStepShape(s, step);
        UnendedShowsNothing(s, cutoff);
        UnendedShowsNothing(Stepped(s, step), cutoff);
      }
    }
  }

  /** A step appends at most one correction, no earlier than the others and with an id of its own. */
  lemma {:induction false} StepIsOrderly(s: Session, step: Step)
    requires s.Valid() && InTime(s, step) && Orderly(s.corrections)
    ensures Orderly(Stepped(s, step).corrections)
  {
    if ReplyTo(s, step) == Done && (step.Correct? || step.Delete?) {
      CorrectionsRestore(s, step);
      var t := Stepped(s, step);
      assert t.corrections == s.corrections + [t.corrections[|t.corrections| - 1]];
    }
  }

  /** Nothing in the row is dated at the cutoff or later. */
  ghost predicate Settled(s: Session, cutoff: int) {
    && (forall c :: c in s.corrections ==> c.correctedAt < cutoff)
    && (s.Deleted() ==> DeletedBefore(s, cutoff))
  }

  lemma {:induction false} SettledViewIsTheRow(s: Session, cutoff: int)
    requires s.Valid() && Settled(s, cutoff)
    ensures EarlierActuality(s, cutoff) == Known(s, cutoff)
  {
    NothingSince(s.corrections, cutoff);
  }

  /** A session from its creation on, step by step; refused steps leave it as it was. */
  ghost predicate IsLife(life: seq<Session>, steps: seq<Step>) {
    && |life| == |steps| + 1
    && life[0].Valid() && life[0].corrections == [] && !life[0].Deleted()
    && forall i: nat :: i < |steps| ==> LivesAt(life, steps, i)
  }

  ghost predicate LivesAt(life: seq<Session>, steps: seq<Step>, i: nat)
    requires i < |steps| && |life| == |steps| + 1
  {
    life[i].Valid() && InTime(life[i], steps[i]) && life[i + 1] == Stepped(life[i], steps[i])
  }

  lemma {:induction false} LivesAreValid(life: seq<Session>, steps: seq<Step>, n: nat)
    requires IsLife(life, steps) && n < |life|
    ensures life[n].Valid()
  {
    if n > 0 {
      assert LivesAt(life, steps, n - 1);
      StepKeepsValid(life[n - 1], steps[n - 1]);
    }
  }

  lemma {:induction false} EarlierStepsSettle(life: seq<Session>, steps: seq<Step>, n: nat, cutoff: int)
    requires IsLife(life, steps) && n < |life| && forall i: nat :: i < n ==> steps[i].now < cutoff
    ensures Settled(life[n], cutoff)
  {
    if n > 0 {
      EarlierStepsSettle(life, steps, n - 1, cutoff);
      assert LivesAt(life, steps, n - 1);
      StepSettles(life[n - 1], steps[n - 1], cutoff);
    }
  }

  lemma {:induction false} StepSettles(s: Session, step: Step, cutoff: int)
    requires s.Valid() && InTime(s, step) && Settled(s, cutoff) && step.now < cutoff
    ensures Settled(Stepped(s, step), cutoff)
  {
    if ReplyTo(s, step) == Done {
      match step
      case Pause(_) => {}
      case Resume(_) => {}
      case Complete(_, _, _, _, _) => {}
      case Cancel(_, _) => {}
      case Correct(_, _, payload, activity) => CorrectedShape(s, Changes(s, payload), activity);
      case Delete(_, _, _) => {}
    }
  }

  lemma {:induction false} LivesAreOrderly(life: seq<Session>, steps: seq<Step>, n: nat)
    requires IsLife(life, steps) && n < |life|
    ensures Orderly(life[n].corrections)
  {
    if n > 0 {
      LivesAreOrderly(life, steps, n - 1);
      assert LivesAt(life, steps, n - 1);
      StepIsOrderly(life[n - 1], steps[n - 1]);
    }
  }

  /** The first `k` of `n` steps were made before the cutoff and the others at it or later. */
  ghost predicate Splits(steps: seq<Step>, k: nat, n: nat, cutoff: int) {
    && k <= n <= |steps|
    && (forall i: nat :: i < k ==> steps[i].now < cutoff) && forall i: nat :: k <= i < n ==> steps[i].now >= cutoff
  }

  lemma {:induction false} LaterStepKeepsEarlier(life: seq<Session>, steps: seq<Step>, i: nat, cutoff: int)
    requires IsLife(life, steps) && i < |steps| && steps[i].now >= cutoff
    ensures life[i].Valid() && life[i + 1].Valid()
    ensures EarlierActuality(life[i + 1], cutoff) == EarlierActuality(life[i], cutoff)
  {
    assert LivesAt(life, steps, i);
    LaterStepsKeepEarlier(life[i], steps[i], cutoff);
  }

  lemma {:induction false} SettledLife(life: seq<Session>, steps: seq<Step>, k: nat, cutoff: int)
    requires IsLife(life, steps) && k < |life| && forall i: nat :: i < k ==> steps[i].now < cutoff
    ensures life[k].Valid() && EarlierActuality(life[k], cutoff) == Known(life[k], cutoff)
  {
    LivesAreValid(life, steps, k);
    EarlierStepsSettle(life, steps, k, cutoff);
    SettledViewIsTheRow(life[k], cutoff);
  }

  /** Undoing the edits in their order gives what a reader of the row saw just before the cutoff, in every life. */
  lemma {:induction false} EarlierIsForwardHistory(life: seq<Session>, steps: seq<Step>, k: nat, n: nat, cutoff: int)
    requires IsLife(life, steps) && Splits(steps, k, n, cutoff)
    ensures life[n].Valid() && life[k].Valid() && EarlierActuality(life[n], cutoff) == Known(life[k], cutoff)
    decreases n
  {
    if n == k {
      SettledLife(life, steps, k, cutoff);
    } else {
      EarlierIsForwardHistory(life, steps, k, n - 1, cutoff);
      LaterStepKeepsEarlier(life, steps, n - 1, cutoff);
    }
  }

  /** In every column of the view the first edit since the cutoff and the least one stored found the same value. */
  ghost predicate ViewInOrder(s: Session, cutoff: int) {
    forall f :: f in VIEW_FIELDS ==> FirstIsLeast(Since(s.corrections, cutoff), f)
  }

  lemma {:induction false} RecoveredIff(s: Session, cutoff: int)
    requires s.Valid() && Orderly(s.corrections)
    ensures Recovered(s, cutoff) == Earlier(s, cutoff) <==> ViewInOrder(s, cutoff)
  {
    SinceIsSuffix(s.corrections, cutoff);
    forall f | f in VIEW_FIELDS
      ensures Recovered(s, cutoff)[f] == Earlier(s, cutoff)[f] <==> FirstIsLeast(Since(s.corrections, cutoff), f)
    {
      RecoveredByColumn(s, cutoff, f);
      OrdersAgreeIff(s.fields[f], Since(s.corrections, cutoff), f);
    }
    RecoveredByColumn(s, cutoff, EndedAt);
  }

  lemma {:induction false} ShownTells(a: Fields, b: Fields, createdAt: int, cutoff: int)
    requires a.Keys == b.Keys == VIEW_FIELDS && Shown(a, createdAt, cutoff).Some?
    ensures Shown(a, createdAt, cutoff) == Shown(b, createdAt, cutoff) <==> a == b
  {
    if Shown(a, createdAt, cutoff) == Shown(b, createdAt, cutoff) {
      forall f | f in VIEW_FIELDS ensures a[f] == b[f] {}
    }
  }

  /**
   In every life: reading the final row at a cutoff recovers what the row was just before it, after the `k` steps made
   by then, exactly when the first and the least edit since the cutoff agree in every column the view shows.
   */
  lemma {:induction false} ViewIsForwardHistoryIff(life: seq<Session>, steps: seq<Step>, k: nat, n: nat, cutoff: int)
    requires IsLife(life, steps) && Splits(steps, k, n, cutoff)
    ensures life[n].Valid() && life[k].Valid()
    ensures Recovered(life[n], cutoff) == Earlier(life[n], cutoff) <==> ViewInOrder(life[n], cutoff)
    ensures ViewInOrder(life[n], cutoff) ==> ActualityAt(life[n], cutoff) == Known(life[k], cutoff)
    ensures Known(life[k], cutoff).Some? ==>
      (ActualityAt(life[n], cutoff) == Known(life[k], cutoff) <==> ViewInOrder(life[n], cutoff))
  {
    var s := life[n];
    EarlierIsForwardHistory(life, steps, k, n, cutoff);
    LivesAreOrderly(life, steps, n);
    RecoveredIff(s, cutoff);
    if Known(life[k], cutoff).Some? {
      RecoveredByColumn(s, cutoff, EndedAt);
      ShownTells(Earlier(s, cutoff), Recovered(s, cutoff), s.createdAt, cutoff);
    }
  }

  /** Edits of one millisecond that share a column and have ids in the order they were made are undone in that order. */
  lemma {:induction false} UndoReplayIsForwardHistory(life: seq<Session>, steps: seq<Step>, k: nat, n: nat, cutoff: int)
    requires IsLife(life, steps) && Splits(steps, k, n, cutoff)
    requires forall f :: f in VIEW_FIELDS ==> InOrder(life[n].corrections, f)
    ensures life[n].Valid() && life[k].Valid() && ActualityAt(life[n], cutoff) == Known(life[k], cutoff)
  {
    ViewIsForwardHistoryIff(life, steps, k, n, cutoff);
    LivesAreOrderly(life, steps, n);
    forall f | f in VIEW_FIELDS ensures FirstIsLeast(Since(life[n].corrections, cutoff), f) {
      InOrderSince(life[n].corrections, f, cutoff);
    }
  }

  // ---- What is never shown ----------------------------------------------------------------------

  ghost predicate CarriedOut(life: seq<Session>, steps: seq<Step>, i: nat)
    requires IsLife(life, steps) && i < |steps|
  {
    LivesAt(life, steps, i) && ReplyTo(life[i], steps[i]) == Done
  }

  /** A deletion among the first `k` steps that was not refused. */
  ghost predicate DeletedBy(life: seq<Session>, steps: seq<Step>, k: nat)
    requires IsLife(life, steps) && k < |life|
  {
    exists i: nat :: i < k && steps[i].Delete? && CarriedOut(life, steps, i)
  }

  /** Ended before the cutoff, with a duration and an outcome that counts. */
  predicate Finalised(s: Session, cutoff: int)
    requires s.Valid()
  {
    && s.fields[EndedAt].Number? && s.fields[EndedAt].n < cutoff && s.fields[DurationMs].Number?
      && s.fields[DurationMs].n >= 0
    && s.fields[Outcome] in {Text("completed"), Text("partial")}
  }

  lemma {:induction false} StepDeletes(s: Session, step: Step)
    requires s.Valid() && InTime(s, step)
    ensures Stepped(s, step).Deleted() <==> s.Deleted() || (step.Delete? && ReplyTo(s, step) == Done)
    ensures Stepped(s, step).createdAt == s.createdAt
  {
    if step.Correct? && ReplyTo(s, step) == Done { CorrectedShape(s, Changes(s, step.payload), step.activity); }
  }

  lemma {:induction false} DeletedIff(life: seq<Session>, steps: seq<Step>, k: nat)
    requires IsLife(life, steps) && k < |life|
    ensures life[k].Deleted() <==> DeletedBy(life, steps, k)
    ensures life[k].createdAt == life[0].createdAt
  {
    if k > 0 {
      DeletedIff(life, steps, k - 1);
      assert LivesAt(life, steps, k - 1);
      StepDeletes(life[k - 1], steps[k - 1]);
      assert steps[k - 1].Delete? && CarriedOut(life, steps, k - 1) ==> DeletedBy(life, steps, k);
    }
  }

  lemma {:induction false} KnownIff(s: Session, cutoff: int)
    requires s.Valid()
    ensures Known(s, cutoff).Some? <==> s.createdAt < cutoff && !s.Deleted() && Finalised(s, cutoff)
  {
    assert forall f :: f in VIEW_FIELDS ==> Restrict(s.fields, VIEW_FIELDS)[f] == s.fields[f];
  }

  lemma {:induction false} LaterStepsKeepDeletion(life: seq<Session>, steps: seq<Step>, k: nat, n: nat, cutoff: int)
    requires IsLife(life, steps) && Splits(steps, k, n, cutoff)
    ensures life[n].Valid() && life[k].Valid() && (DeletedBefore(life[n], cutoff) <==> life[k].Deleted())
    decreases n
  {
    LivesAreValid(life, steps, n);
    LivesAreValid(life, steps, k);
    if n == k {
      EarlierStepsSettle(life, steps, k, cutoff);
    } else {
      LaterStepsKeepDeletion(life, steps, k, n - 1, cutoff);
      assert LivesAt(life, steps, n - 1);
      StepKeepsDeletion(life[n - 1], steps[n - 1], cutoff);
    }
  }

  lemma {:induction false} StepKeepsDeletion(s: Session, step: Step, cutoff: int)
    requires s.Valid() && InTime(s, step) && step.now >= cutoff
    ensures DeletedBefore(Stepped(s, step), cutoff) <==> DeletedBefore(s, cutoff)
  {
    if ReplyTo(s, step) == Done && (step.Correct? || step.Delete?) { CorrectionKeepsDeletion(s, step, cutoff); }
  }

  predicate FinalisedBy(values: Fields, cutoff: int)
    requires Has(values, VIEW_FIELDS)
  {
    && values[EndedAt].Number? && values[EndedAt].n < cutoff
    && values[DurationMs].Number? && values[DurationMs].n >= 0
    && values[Outcome] in {Text("completed"), Text("partial")}
  }

  /**
   However the session is edited afterwards, its final row shows something at a cutoff exactly when the session existed
   before the cutoff, none of the `k` steps before it deleted it, and what is recovered is finalised; if the view is in
   order, exactly when those steps left it finalised.
   */
  lemma {:induction false} ShownIff(life: seq<Session>, steps: seq<Step>, k: nat, n: nat, cutoff: int)
    requires IsLife(life, steps) && Splits(steps, k, n, cutoff)
    ensures life[n].Valid() && life[k].Valid()
    ensures ActualityAt(life[n], cutoff).Some? <==>
      life[0].createdAt < cutoff && !DeletedBy(life, steps, k) && FinalisedBy(Recovered(life[n], cutoff), cutoff)
    ensures ViewInOrder(life[n], cutoff) ==>
      (ActualityAt(life[n], cutoff).Some? <==>
        life[0].createdAt < cutoff && !DeletedBy(life, steps, k) && Finalised(life[k], cutoff))
  {
    ViewIsForwardHistoryIff(life, steps, k, n, cutoff);
    LaterStepsKeepDeletion(life, steps, k, n, cutoff);
    DeletedIff(life, steps, k);
    DeletedIff(life, steps, n);
    KnownIff(life[k], cutoff);
  }

  /** The row is cancelled and no correction touched its outcome. */
  ghost predicate CancelledForGood(s: Session) {
    && !s.Open() && Outcome in s.fields && s.fields[Outcome] == Text("cancelled")
    && forall c :: c in s.corrections ==> Outcome !in c.before
  }

  lemma {:induction false} StepKeepsCancelled(s: Session, step: Step)
    requires s.Valid() && InTime(s, step)
    ensures CancelledForGood(s) ==> CancelledForGood(Stepped(s, step))
    ensures step.Cancel? && ReplyTo(s, step) == Done ==> CancelledForGood(Stepped(s, step))
  {
    if CancelledForGood(s) && ReplyTo(s, step) == Done && step.Correct? {
      CorrectedShape(s, Changes(s, step.payload), step.activity);
      assert Outcome !in Audited(Changes(s, step.payload));
    }
  }

  lemma {:induction false} CancelledStays(life: seq<Session>, steps: seq<Step>, c: nat, n: nat)
    requires IsLife(life, steps) && c < n < |life| && steps[c].Cancel? && CarriedOut(life, steps, c)
    ensures CancelledForGood(life[n])
    decreases n
  {
    assert LivesAt(life, steps, n - 1);
    StepKeepsCancelled(life[n - 1], steps[n - 1]);
    if c < n - 1 { CancelledStays(life, steps, c, n - 1); }
  }

  /** A cancelled session shows nothing at any cutoff, before or after it was cancelled and whatever is corrected. */
  lemma {:induction false} CancelledIsNeverShown(life: seq<Session>, steps: seq<Step>, c: nat, n: nat, cutoff: int)
    requires IsLife(life, steps) && c < n < |life| && steps[c].Cancel? && CarriedOut(life, steps, c)
    ensures life[n].Valid() && ActualityAt(life[n], cutoff) == None
  {
    var s := life[n];
    LivesAreValid(life, steps, n);
    CancelledStays(life, steps, c, n);
    var since := Since(s.corrections, cutoff);
    SinceMembers(s.corrections, cutoff);
    NewestFirstMembers(since);
    RecoveredByColumn(s, cutoff, Outcome);
    Untouched(s.fields[Outcome], NewestFirst(since), Outcome);
    assert Recovered(s, cutoff)[Outcome].s[1] == 'a';
  }

  // ---- Edits in one millisecond -----------------------------------------------------------------

  /** The value recovered in a column is what the least correction since the cutoff found there, if one touches it. */
  lemma {:induction false} LeastIsRecovered(s: Session, cutoff: int, f: Field, c: Correction)
    requires s.Valid() && Orderly(s.corrections) && f in VIEW_FIELDS && IsLeast(Since(s.corrections, cutoff), f, c)
    ensures Recovered(s, cutoff)[f] == c.before[f]
  {
    SinceIsSuffix(s.corrections, cutoff);
    RecoveredByColumn(s, cutoff, f);
    LeastDecides(s.fields[f], Since(s.corrections, cutoff), f, c);
  }

  /**
   If two edits of one millisecond are all that touched a column since the cutoff, and they found different values
   there, the value before them is recovered exactly when their ids are in the order of the edits.
   */
  lemma {:induction false} SameInstantEdits(s: Session, cutoff: int, f: Field, i: nat, j: nat)
    requires s.Valid() && Orderly(s.corrections) && f in VIEW_FIELDS
    requires var cs := Since(s.corrections, cutoff);
      && i < j < |cs| && cs[i].correctedAt == cs[j].correctedAt && f in cs[i].before && f in cs[j].before
      && (forall h :: 0 <= h < |cs| && f in cs[h].before ==> h == i || h == j)
      && cs[i].before[f] != cs[j].before[f]
    ensures var cs := Since(s.corrections, cutoff);
      Recovered(s, cutoff)[f] == cs[i].before[f] <==> cs[i].id < cs[j].id
  {
    var cs := Since(s.corrections, cutoff);
    SinceIsSuffix(s.corrections, cutoff);
    var c := if cs[i].id < cs[j].id then cs[i] else cs[j];
    assert cs[i].id != cs[j].id;
    assert IsLeast(cs, f, c);
    LeastIsRecovered(s, cutoff, f, c);
  }
}

/** What a session's steps do to its columns, and that the duration it ends with is the time it ran. */
module SessionLaws {
  import opened Base
  import opened Model
  import opened SessionRows
  import opened SessionReplay

  // ---- The time worked --------------------------------------------------------------------------

  /** The instant of the last step among the first `n`, or the start. */
  function InstantOf(steps: seq<Step>, start: int, n: nat): int
    requires n <= |steps|
  {
    if n == 0 then start else steps[n - 1].now
  }

  /** The time between the first `n` steps in which the session was running. */
  function TimeRun(life: seq<Session>, steps: seq<Step>, start: int, n: nat): int
    requires n <= |steps| && |life| == |steps| + 1
  {
    if n == 0 then 0
    else
      var before := TimeRun(life, steps, start, n - 1);
      if life[n - 1].state == Running then before + steps[n - 1].now - InstantOf(steps, start, n - 1) else before
  }

  /** A session is created running, with nothing worked. */
  ghost predicate StartsAt(s: Session, start: int) {
    s.state == Running && s.activeSince == start && Holds(s, AccumulatedMs, 0)
  }

  ghost predicate Holds(s: Session, f: Field, n: int) { f in s.fields && s.fields[f] == Number(n) }

  /** While it is open, the time accumulated and the present stretch make up the time it ran. */
  lemma {:induction false} OpenTimeIsRun(life: seq<Session>, steps: seq<Step>, start: int, n: nat)
    requires IsLife(life, steps) && StartsAt(life[0], start) && n < |life| && life[n].Open()
    ensures Holds(life[n], AccumulatedMs, TimeRun(life, steps, start, n)
      - if life[n].state == Running then InstantOf(steps, start, n) - life[n].activeSince else 0)
  {
    LivesAreValid(life, steps, n);
    if n > 0 {
      assert LivesAt(life, steps, n - 1);
      assert life[n - 1].Open();
      OpenTimeIsRun(life, steps, start, n - 1);
    }
  }

  /** The duration a session is completed or cancelled with is the time it ran, over all its stretches. */
  lemma {:induction false} DurationIsTimeRun(life: seq<Session>, steps: seq<Step>, start: int, n: nat)
    requires IsLife(life, steps) && StartsAt(life[0], start) && n < |steps|
    requires life[n].Open() && !life[n + 1].Open()
    ensures Holds(life[n + 1], DurationMs, TimeRun(life, steps, start, n + 1))
    ensures Holds(life[n + 1], AccumulatedMs, TimeRun(life, steps, start, n + 1))
    ensures Holds(life[n + 1], EndedAt, steps[n].now)
  {
    assert LivesAt(life, steps, n);
    OpenTimeIsRun(life, steps, start, n);
  }

  // ---- What a correction changes ----------------------------------------------------------------

  /** Some submitted column that belongs to the activity differs. */
  ghost predicate TouchesActivity(s: Session, payload: Fields)
    requires s.Valid()
  {
    exists f :: f in payload && payload[f] != s.fields[f]
      && (f == ActivityType || f == Notes || f == Outcome || f == DurationMs)
  }

  /** The submitted duration differs. */
  ghost predicate TouchesDuration(s: Session, payload: Fields)
    requires s.Valid()
  {
    DurationMs in payload && payload[DurationMs] != s.fields[DurationMs]
  }

  /** What the column holds after the correction. */
  ghost predicate CorrectedColumn(s: Session, t: Session, payload: Fields, activity: Value, f: Field)
    requires s.Valid() && f in t.fields
  {
    if f in payload then t.fields[f] == payload[f]
    else if f == ActivityId && TouchesActivity(s, payload) then t.fields[f] == activity
    else if f == AccumulatedMs && TouchesDuration(s, payload) then t.fields[f] == payload[DurationMs]
    else if f == EndedAt && TouchesDuration(s, payload) then
      payload[DurationMs].Number? && t.fields[f] == Number(s.fields[StartedAt].n + payload[DurationMs].n)
    else t.fields[f] == s.fields[f]
  }

  /** When a correction is carried out: on a finished row, with a change, of no cancelled outcome, to a duration. */
  ghost predicate Correctable(s: Session, payload: Fields)
    requires s.Valid()
  {
    && s.state != Running && s.state != Paused && s.fields[TombstonedAt] == Null
    && (exists f :: f in payload && payload[f] != s.fields[f])
    && (s.fields[Outcome] == Text("cancelled") && Outcome in payload ==> payload[Outcome] == s.fields[Outcome])
    && (TouchesDuration(s, payload) ==> payload[DurationMs].Number?)
  }

  lemma {:induction false} CorrectableMeans(s: Session, now: int, id: Id, payload: Fields, activity: Value)
    requires s.Valid()
    ensures ReplyTo(s, Step.Correct(now, id, payload, activity)) == Done <==> Correctable(s, payload)
    ensures ReplyTo(s, Step.Correct(now, id, payload, activity)) == Unchanged <==>
      && s.state != Running && s.state != Paused && s.fields[TombstonedAt] == Null
      && forall f :: f in payload ==> payload[f] == s.fields[f]
  {
    var changes := Changes(s, payload);
    if f :| f in payload && payload[f] != s.fields[f] { assert f in changes; }
    if changes != map[] { var f :| f in changes; }
  }

  lemma {:induction false} ActivityTouched(s: Session, payload: Fields)
    requires s.Valid()
    ensures Changes(s, payload).Keys * ACTIVITY_OWNED != {} <==> TouchesActivity(s, payload)
  {
    var changes := Changes(s, payload);
    if TouchesActivity(s, payload) {
      var f :| f in payload && payload[f] != s.fields[f] && f in ACTIVITY_OWNED;
      assert f in changes.Keys * ACTIVITY_OWNED;
    }
    if changes.Keys * ACTIVITY_OWNED != {} {
      var f :| f in changes.Keys * ACTIVITY_OWNED;
    }
  }

  /** Submitted columns hold what was submitted, changed or not. */
  lemma {:induction false} SubmittedColumn(s: Session, payload: Fields, activity: Value, f: Field)
    requires s.Valid() && payload.Keys <= CORRECTABLE && Correctable(s, payload) && f in payload
    ensures var fields := CorrectedFields(s, Changes(s, payload), activity); f in fields && fields[f] == payload[f]
  {
    assert f != ActivityId && f != AccumulatedMs && f != EndedAt;
  }

  lemma {:induction false} OtherColumn(s: Session, payload: Fields, activity: Value, f: Field)
    requires s.Valid() && Correctable(s, payload) && f !in payload
    ensures var fields := CorrectedFields(s, Changes(s, payload), activity);
      f in fields && CorrectedColumn(s, s.(fields := fields), payload, activity, f)
  {
    ActivityTouched(s, payload);
  }

  /**
   A correction is carried out exactly on a finished row that it changes in an allowed way; then every column holds what
   was submitted, what follows from it, or what it held before.  The row keeps its state and its earlier corrections.
   */
  lemma {:induction false} CorrectionIsExact(s: Session, now: int, id: Id, payload: Fields, activity: Value)
    requires s.Valid() && payload.Keys <= CORRECTABLE
    ensures var t := Stepped(s, Step.Correct(now, id, payload, activity));
      if Correctable(s, payload) then
        && t.state == s.state && t.createdAt == s.createdAt
        && (forall f: Field :: f in t.fields && CorrectedColumn(s, t, payload, activity, f))
        && |t.corrections| == |s.corrections| + 1 && s.corrections <= t.corrections
      else t == s
  {
    CorrectableMeans(s, now, id, payload, activity);
    var t := Stepped(s, Step.Correct(now, id, payload, activity));
    if Correctable(s, payload) {
      forall f: Field ensures f in t.fields && CorrectedColumn(s, t, payload, activity, f) {
        if f in payload { SubmittedColumn(s, payload, activity, f); } else { OtherColumn(s, payload, activity, f); }
      }
    }
  }

  // ---- What the other steps change --------------------------------------------------------------

  /** What finishing leaves in a column: the duration, the end, the activity and the result; the rest stays. */
  ghost predicate FinishedColumn(s: Session, t: Session, step: Step, f: Field)
    requires (step.Complete? || step.Cancel?) && f in s.fields && f in t.fields && DurationMs in t.fields
  {
    match f
    case AccumulatedMs => t.fields[f] == t.fields[DurationMs]
    case DurationMs => true
    case EndedAt => t.fields[f] == Number(step.now)
    case ActivityId => t.fields[f] == step.activity
    case Outcome => t.fields[f] == if step.Cancel? then Text("cancelled") else step.outcome
    case Difficulty => t.fields[f] == if step.Complete? then step.difficulty else s.fields[f]
    case Notes => t.fields[f] == if step.Complete? then step.notes else s.fields[f]
    case _ => t.fields[f] == s.fields[f]
  }

  /** Exactly an open session is completed or cancelled. */
  lemma {:induction false} FinishingIsExact(s: Session, step: Step)
    requires s.Valid() && (step.Complete? || step.Cancel?)
    ensures ReplyTo(s, step) == Done <==> s.state == Running || s.state == Paused
    ensures var t := Stepped(s, step);
      if ReplyTo(s, step) == Done then
        && t.state == (if step.Complete? then Completed else Cancelled)
        && t.corrections == s.corrections && t.createdAt == s.createdAt
        && forall f: Field :: f in t.fields && DurationMs in t.fields && FinishedColumn(s, t, step, f)
      else t == s
  {}

  /** A running session pauses, a paused one runs again from now; neither changes a column the view shows. */
  lemma {:induction false} PausingIsExact(s: Session, step: Step)
    requires s.Valid() && (step.Pause? || step.Resume?)
    ensures ReplyTo(s, step) == Done <==> s.state == (if step.Pause? then Running else Paused)
    ensures var t := Stepped(s, step);
      if ReplyTo(s, step) == Done then
        && t.state == (if step.Pause? then Paused else Running) && (step.Resume? ==> t.activeSince == step.now)
        && t.corrections == s.corrections && t.createdAt == s.createdAt
        && forall f: Field :: f in t.fields && (f != AccumulatedMs ==> t.fields[f] == s.fields[f])
      else t == s
  {}

  /** Exactly a finished row that is not deleted can be deleted; the two deletion columns change and are recorded. */
  lemma {:induction false} DeletionIsExact(s: Session, step: Step)
    requires s.Valid() && step.Delete?
    ensures ReplyTo(s, step) == Done <==> s.state != Running && s.state != Paused && s.fields[TombstonedAt] == Null
    ensures var t := Stepped(s, step);
      if ReplyTo(s, step) == Done then
        && t.state == s.state && |t.corrections| == |s.corrections| + 1 && s.corrections <= t.corrections
        && forall f: Field :: f in t.fields && t.fields[f] == (
             if f == TombstonedAt then Number(step.now) else if f == TombstoneReason then step.reason else s.fields[f])
      else t == s
  {}

  // ---- What the view shows ----------------------------------------------------------------------

  /** The view shows the recovered columns, and when the session was recorded. */
  lemma {:induction false} ViewShowsColumns(s: Session, cutoff: int, v: Actuality)
    requires s.Valid() && ActualityAt(s, cutoff) == Some(v)
    ensures var r := Recovered(s, cutoff);
      && v.activityId == r[ActivityId] && v.assistanceMode == r[AssistanceMode] && v.startedAt == r[StartedAt]
      && r[EndedAt] == Number(v.endedAt) && r[DurationMs] == Number(v.durationMs) && v.outcome == r[Outcome]
      && v.recordedAt == s.createdAt
      && v.endedAt < cutoff && v.durationMs >= 0 && s.createdAt < cutoff
  {}
}

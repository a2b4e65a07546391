/** Learning sessions: a row that commands edit in place, each edit recording the values it overwrote. */
module SessionRows {
  import opened Model

  datatype Field =
    | ActivityId | ActivityType | AssistanceMode | StartedAt | EndedAt | DurationMs | AccumulatedMs | Outcome | Notes
    | CompetencyId | TrackId | Difficulty | TombstonedAt | TombstoneReason

  datatype Value = Null | Number(n: int) | Text(s: string)

  type Fields = map<Field, Value>

  datatype Correction = Correction(id: Id, correctedAt: int, before: Fields, after: Fields)

  datatype TimedState = Untimed | Running | Paused | Completed | Cancelled

  datatype Session = Session(createdAt: int, state: TimedState, activeSince: int, fields: Fields,
    corrections: seq<Correction>) {
    predicate Open() { state == Running || state == Paused }

    predicate Deleted() { TombstonedAt in fields && fields[TombstonedAt] != Null }

    /** Every column has a value, the start is a number, and an open session has not ended and has no corrections. */
    ghost predicate Valid() {
      && (forall f: Field :: f in fields)
      && fields[StartedAt].Number? && fields[AccumulatedMs].Number? && !fields[TombstonedAt].Text?
      && (Open() ==> fields[EndedAt] == Null && fields[TombstonedAt] == Null && corrections == [])
    }
  }

  const VIEW_FIELDS: set<Field> := {ActivityId, AssistanceMode, StartedAt, EndedAt, DurationMs, Outcome}
  const CORRECTABLE: set<Field> :=
    {CompetencyId, TrackId, ActivityType, AssistanceMode, DurationMs, Difficulty, Outcome, Notes}
  const ACTIVITY_OWNED: set<Field> := {ActivityType, Notes, Outcome, DurationMs}

  function Restrict(m: Fields, keys: set<Field>): Fields { map f | f in m && f in keys :: m[f] }

  // ---- Forward edits ----------------------------------------------------------------------------

  datatype Step =
    | Pause(now: int)
    | Resume(now: int)
    | Complete(now: int, outcome: Value, difficulty: Value, notes: Value, activity: Value)
    | Cancel(now: int, activity: Value)
    | Correct(now: int, id: Id, payload: Fields, activity: Value)
    | Delete(now: int, id: Id, reason: Value)

  datatype Refusal = NotFound | ActiveSession | NotRunning | NotPaused | AlreadyFinal | CancelledImmutable | NoDuration

  datatype Reply = Done | Unchanged | Refused(why: Refusal)

  /** The submitted values that differ from the row. */
  function Changes(s: Session, payload: Fields): Fields
    requires s.Valid()
  {
    map f | f in payload && payload[f] != s.fields[f] :: payload[f]
  }

  function ReplyTo(s: Session, step: Step): Reply
    requires s.Valid()
  {
    match step
    case Pause(_) =>
      if s.state == Untimed || s.Deleted() then Refused(NotFound) else if s.state != Running then Refused(NotRunning)
        else Done
    case Resume(_) =>
      if s.state == Untimed || s.Deleted() then Refused(NotFound) else if s.state != Paused then Refused(NotPaused)
        else Done
    case Complete(_, _, _, _, _) =>
      if s.state == Untimed || s.Deleted() then Refused(NotFound) else if !s.Open() then Refused(AlreadyFinal) else Done
    case Cancel(_, _) =>
      if s.state == Untimed || s.Deleted() then Refused(NotFound) else if !s.Open() then Refused(AlreadyFinal) else Done
    case Correct(_, _, payload, _) =>
      if s.Deleted() then Refused(NotFound)
      else if s.Open() then Refused(ActiveSession)
      else if Changes(s, payload) == map[] then Unchanged
      else if s.fields[Outcome] == Text("cancelled") && Outcome in Changes(s, payload) then Refused(CancelledImmutable)
      else if DurationMs in Changes(s, payload) && !payload[DurationMs].Number? then Refused(NoDuration)
      else Done
    case Delete(_, _, _) =>
      if s.Deleted() then Refused(NotFound) else if s.Open() then Refused(ActiveSession) else Done
  }

  /** The columns a correction reports, including those that follow from the submitted ones. */
  function Audited(changes: Fields): set<Field> {
    changes.Keys
    + (if changes.Keys * ACTIVITY_OWNED != {} then {ActivityId} else {})
    + (if DurationMs in changes then {AccumulatedMs, EndedAt} else {})
  }

  function CorrectedFields(s: Session, changes: Fields, activity: Value): Fields
    requires s.Valid()
  {
    var withActivity := if changes.Keys * ACTIVITY_OWNED != {} then s.fields[ActivityId := activity] else s.fields;
    var changed := withActivity + changes;
    if DurationMs in changes && changes[DurationMs].Number?
    then changed[AccumulatedMs := changes[DurationMs]][EndedAt := Number(s.fields[StartedAt].n + changes[DurationMs].n)]
    else changed
  }

  function Recorded(s: Session, now: int, id: Id, audited: set<Field>, fields: Fields): Session {
    s.(fields := fields,
       corrections := s.corrections + [Correction(id, now, Restrict(s.fields, audited), Restrict(fields, audited))])
  }

  /** Time worked, counting the stretch since the last resume. */
  function Worked(s: Session, now: int): Value
    requires s.Valid()
  {
    if s.state == Running then Number(s.fields[AccumulatedMs].n + now - s.activeSince) else s.fields[AccumulatedMs]
  }

  function Finished(s: Session, now: int, activity: Value): Fields
    requires s.Valid()
  {
    var worked := Worked(s, now);
    s.fields[AccumulatedMs := worked][DurationMs := worked][EndedAt := Number(now)][ActivityId := activity]
  }

  /** The session after a step that is carried out. */
  function Stepped(s: Session, step: Step): Session
    requires s.Valid()
  {
    if ReplyTo(s, step) != Done then s
    else
      match step
      case Pause(now) => s.(state := Paused, fields := s.fields[AccumulatedMs := Worked(s, now)])
      case Resume(now) => s.(state := Running, activeSince := now)
      case Complete(now, outcome, difficulty, notes, activity) =>
        s.(state := Completed,
          fields := Finished(s, now, activity)[Outcome := outcome][Difficulty := difficulty][Notes := notes])
      case Cancel(now, activity) =>
        s.(state := Cancelled, fields := Finished(s, now, activity)[Outcome := Text("cancelled")])
      case Correct(now, id, payload, activity) =>
        var changes := Changes(s, payload);
        Recorded(s, now, id, Audited(changes), CorrectedFields(s, changes, activity))
      case Delete(now, id, reason) =>
        Recorded(s, now, id, {TombstonedAt, TombstoneReason},
          s.fields[TombstonedAt := Number(now)][TombstoneReason := reason])
  }

  // ---- The row and its commands -----------------------------------------------------------------

  class SessionRow {
    const createdAt: int
    var state: TimedState
    var activeSince: int
    var fields: Fields
    var corrections: seq<Correction>

    function Contents(): Session
      reads this
    {
      Session.Session(createdAt, state, activeSince, fields, corrections)
    }

    constructor (createdAt: int, state: TimedState, activeSince: int, fields: Fields)
      ensures Contents() == Session.Session(createdAt, state, activeSince, fields, [])
    {
      this.createdAt, this.state, this.activeSince, this.fields, corrections := createdAt, state, activeSince, fields,
        [];
    }

    method Pause(now: int) returns (reply: Reply)
      requires Contents().Valid()
      modifies this
      ensures reply == ReplyTo(old(Contents()), Step.Pause(now))
      ensures Contents() == Stepped(old(Contents()), Step.Pause(now))
    {
      if state == Untimed || Contents().Deleted() {
        return Refused(NotFound);
      }
      if state != Running {
        return Refused(NotRunning);
      }
      fields := fields[AccumulatedMs := Number(fields[AccumulatedMs].n + (now - activeSince))];
      state := Paused;
      reply := Done;
    }

    method Resume(now: int) returns (reply: Reply)
      requires Contents().Valid()
      modifies this
      ensures reply == ReplyTo(old(Contents()), Step.Resume(now))
      ensures Contents() == Stepped(old(Contents()), Step.Resume(now))
    {
      if state == Untimed || Contents().Deleted() {
        return Refused(NotFound);
      }
      if state != Paused {
        return Refused(NotPaused);
      }
      activeSince := now;
      state := Running;
      reply := Done;
    }

    /** What completing and cancelling share. */
    method Finalize(now: int, activity: Value)
      requires Contents().Valid()
      modifies this`fields
      ensures fields == Finished(old(Contents()), now, activity)
    {
      var duration := fields[AccumulatedMs];
      if state == Running {
        duration := Number(duration.n + (now - activeSince));
      }
      fields := fields[AccumulatedMs := duration];
      fields := fields[DurationMs := duration];
      fields := fields[EndedAt := Number(now)];
      fields := fields[ActivityId := activity];
    }

    method Cancel(now: int, activity: Value) returns (reply: Reply)
      requires Contents().Valid()
      modifies this
      ensures reply == ReplyTo(old(Contents()), Step.Cancel(now, activity))
      ensures Contents() == Stepped(old(Contents()), Step.Cancel(now, activity))
    {
      if state == Untimed || Contents().Deleted() {
        return Refused(NotFound);
      }
      if state != Running && state != Paused {
        return Refused(AlreadyFinal);
      }
      Finalize(now, activity);
      state := Cancelled;
      fields := fields[Outcome := Text("cancelled")];
      reply := Done;
    }

    method Complete(now: int, outcome: Value, difficulty: Value, notes: Value, activity: Value) returns (reply: Reply)
      requires Contents().Valid()
      modifies this
      ensures reply == ReplyTo(old(Contents()), Step.Complete(now, outcome, difficulty, notes, activity))
      ensures Contents() == Stepped(old(Contents()), Step.Complete(now, outcome, difficulty, notes, activity))
    {
      if state == Untimed || Contents().Deleted() {
        return Refused(NotFound);
      }
      if state != Running && state != Paused {
        return Refused(AlreadyFinal);
      }
      Finalize(now, activity);
      state := Completed;
      fields := fields[Outcome := outcome][Difficulty := difficulty][Notes := notes];
      reply := Done;
    }

    method Correct(now: int, id: Id, payload: Fields, activity: Value) returns (reply: Reply)
      requires Contents().Valid() && payload.Keys <= CORRECTABLE
      modifies this
      ensures reply == ReplyTo(old(Contents()), Step.Correct(now, id, payload, activity))
      ensures Contents() == Stepped(old(Contents()), Step.Correct(now, id, payload, activity))
    {
      if Contents().Deleted() {
        return Refused(NotFound);
      }
      if state == Running || state == Paused {
        return Refused(ActiveSession);
      }
      var changes := map f | f in payload && payload[f] != fields[f] :: payload[f];
      if changes == map[] {
        return Unchanged;
      }
      if fields[Outcome] == Text("cancelled") && Outcome in changes {
        return Refused(CancelledImmutable);
      }
      if DurationMs in changes && !changes[DurationMs].Number? {
        return Refused(NoDuration);
      }
      reply := Done;
      var audited := Audited(changes);
      var before := Restrict(fields, audited);
      Apply(changes, activity);
      corrections := corrections + [Correction(id, now, before, Restrict(fields, audited))];
    }

    method Apply(changes: Fields, activity: Value)
      requires Contents().Valid() && (DurationMs in changes ==> changes[DurationMs].Number?)
      requires changes.Keys <= CORRECTABLE
      modifies this`fields
      ensures fields == CorrectedFields(old(Contents()), changes, activity)
    {
      if changes.Keys * ACTIVITY_OWNED != {} {
        fields := fields[ActivityId := activity];
      }
      fields := fields + changes;
      if DurationMs in changes {
        fields := fields[AccumulatedMs := changes[DurationMs]];
        fields := fields[EndedAt := Number(fields[StartedAt].n + changes[DurationMs].n)];
      }
    }

    method Delete(now: int, id: Id, reason: Value) returns (reply: Reply)
      requires Contents().Valid()
      modifies this
      ensures reply == ReplyTo(old(Contents()), Step.Delete(now, id, reason))
      ensures Contents() == Stepped(old(Contents()), Step.Delete(now, id, reason))
    {
      if Contents().Deleted() {
        return Refused(NotFound);
      }
      if state == Running || state == Paused {
        return Refused(ActiveSession);
      }
      var before := Restrict(fields, {TombstonedAt, TombstoneReason});
      fields := fields[TombstonedAt := Number(now)];
      fields := fields[TombstoneReason := reason];
      corrections := corrections + [Correction(id, now, before, Restrict(fields, {TombstonedAt, TombstoneReason}))];
      reply := Done;
    }
  }
}

/**
 The life of one Today suggestion: interactions appended with the status they found, retractions of the latest one,
 and the validator that replays them.  What the validator accepts is a short valid path; what the writers produce is
 accepted, except after a legacy restart past the expiry.
 */
module TodayReplay {
  import opened Base
  import opened Model

  datatype Status =
    | Suggested | Viewed | Accepted | Started | Completed | PartiallyCompleted | Skipped | Replaced | Expired

  function Transitions(s: Status): set<Status> {
    match s
    case Suggested => {Viewed, Accepted, Started, Skipped, Replaced, Expired}
    case Viewed => {Accepted, Started, Skipped, Replaced, Expired}
    case Accepted => {Started, Skipped, Replaced, Expired}
    case Started => {Completed, PartiallyCompleted, Replaced, Expired}
    case _ => {}
  }

  predicate Terminal(s: Status) { s in {Completed, PartiallyCompleted, Skipped, Replaced, Expired} }

  /** How far along a status is; every allowed transition moves further. */
  function Progress(s: Status): nat {
    match s case Suggested => 0 case Viewed => 1 case Accepted => 2 case Started => 3 case _ => 4
  }

  /**
   An open suggestion can be viewed, accepted and started in that order, skipping ahead; replaced or expired at any
   time; skipped until it is started; and finished once it is.  A closed one stays as it is.
   */
  ghost predicate CanBecome(s: Status, kind: Status) {
    && !Terminal(s)
    && (|| ((kind == Viewed || kind == Accepted || kind == Started) && Progress(s) < Progress(kind))
        || kind == Replaced || kind == Expired
        || (kind == Skipped && s != Started)
        || ((kind == Completed || kind == PartiallyCompleted) && s == Started))
  }

  lemma {:induction false} TransitionsMean(s: Status, kind: Status)
    ensures kind in Transitions(s) <==> CanBecome(s, kind)
    ensures Terminal(s) <==> Transitions(s) == {}
  {
    if !Terminal(s) { assert Expired in Transitions(s); }
  }

  datatype Suggestion = Suggestion(id: Id, localDate: int, createdAt: int, expiresAt: int)

  datatype InteractionCorrection = InteractionCorrection(at: int, resulting: Status, reason: string, actor: string,
    source: string)

  datatype Interaction = Interaction(
    id: Id, sequence: int, kind: Status, prior: Status, resulting: Status, occurredAt: int,
    reasonCode: string, replacement: Option<Id>, retraction: Option<InteractionCorrection>)

  datatype CurrentState = CurrentState(status: Status, sequence: int, latest: Option<Id>, terminal: bool,
    updatedAt: int)

  const MIDNIGHT: string := "next_local_midnight"

  // ---- What the validator accepts ---------------------------------------------------------------

  function StatusAfter(rows: seq<Interaction>, n: nat): Status
    requires n <= |rows|
  {
    if n == 0 then Suggested
    else if rows[n - 1].retraction.Some? then rows[n - 1].retraction.value.resulting
    else rows[n - 1].resulting
  }

  function TimeAfter(s: Suggestion, rows: seq<Interaction>, n: nat): int
    requires n <= |rows|
  {
    if n == 0 then s.createdAt
    else if rows[n - 1].retraction.Some? then rows[n - 1].retraction.value.at
    else rows[n - 1].occurredAt
  }

  /** A named replacement is another suggestion of the same day that already existed. */
  ghost predicate ReplacementFits(peers: map<Id, Suggestion>, s: Suggestion, r: Interaction) {
    r.replacement.Some? ==>
      && r.replacement.value in peers
      && var p := peers[r.replacement.value];
         p.id != s.id && p.localDate == s.localDate && p.createdAt <= r.occurredAt
  }

  ghost predicate RetractionFits(r: Interaction, next: Option<Interaction>) {
    r.retraction.Some? ==>
      var c := r.retraction.value;
      && c.reason != "" && c.actor in {"user", "system"} && c.source != ""
      && c.resulting == r.prior && c.at >= r.occurredAt
      && (next.Some? ==> c.at <= next.value.occurredAt)
  }

  /** User interactions come before the expiry, the midnight expiry not before it. */
  ghost predicate ExpiryFits(s: Suggestion, r: Interaction) {
    && (r.kind in {Viewed, Accepted, Started, Skipped} ==> r.occurredAt < s.expiresAt)
    && (r.kind == Expired && r.reasonCode == MIDNIGHT ==> r.occurredAt >= s.expiresAt)
  }

  ghost function RowAt(rows: seq<Interaction>, i: nat): Option<Interaction> {
    if i < |rows| then Some(rows[i]) else None
  }

  ghost predicate RowFits(peers: map<Id, Suggestion>, s: Suggestion, rows: seq<Interaction>, i: nat)
    requires i < |rows|
  {
    var r := rows[i];
    && r.sequence == i + 1
    && r.occurredAt >= s.createdAt && r.occurredAt >= TimeAfter(s, rows, i)
    && r.prior == StatusAfter(rows, i) && r.kind in Transitions(r.prior) && r.resulting == r.kind
    && ReplacementFits(peers, s, r) && RetractionFits(r, RowAt(rows, i + 1)) && ExpiryFits(s, r)
  }

  ghost predicate RowsFit(peers: map<Id, Suggestion>, s: Suggestion, rows: seq<Interaction>) {
    forall i: nat :: i < |rows| ==> RowFits(peers, s, rows, i)
  }

  /** The stored current state, recomputed from the rows. */
  function Rebuilt(s: Suggestion, rows: seq<Interaction>): CurrentState {
    if rows == [] then CurrentState(Suggested, 0, None, false, s.createdAt)
    else
      var latest := rows[|rows| - 1];
      var status := if latest.retraction.Some? then latest.retraction.value.resulting else latest.resulting;
      var updated := if latest.retraction.Some? then latest.retraction.value.at else latest.occurredAt;
      CurrentState(status, latest.sequence, Some(latest.id), Terminal(status), updated)
  }

  /** The validator's replay of one suggestion; the rows come in sequence order. */
  method ReplaySuggestion(
      peers: map<Id, Suggestion>, s: Suggestion, rows: seq<Interaction>, state: Option<CurrentState>)
    returns (accepted: bool)
    ensures accepted <==> RowsFit(peers, s, rows) && state == Some(Rebuilt(s, rows))
  {
    var status := Suggested;
    var latest: Option<Interaction> := None;
    var updatedAt := s.createdAt;
    for i := 0 to |rows|
      invariant status == StatusAfter(rows, i) && updatedAt == TimeAfter(s, rows, i)
      invariant latest == if i == 0 then None else Some(rows[i - 1])
      invariant forall k: nat :: k < i ==> RowFits(peers, s, rows, k)
    {
      var r := rows[i];
      if r.sequence != i + 1 || r.occurredAt < s.createdAt || r.occurredAt < updatedAt || r.prior != status
        || r.kind !in Transitions(status) || r.resulting != r.kind
      {
        assert !RowFits(peers, s, rows, i);
        return false;
      }
      if r.replacement.Some? {
        var id := r.replacement.value;
        if id !in peers || peers[id].id == s.id || peers[id].localDate != s.localDate
          || peers[id].createdAt > r.occurredAt
        {
          assert !RowFits(peers, s, rows, i);
          return false;
        }
      }
      status := r.resulting;
      latest := Some(r);
      updatedAt := r.occurredAt;
      if r.retraction.Some? {
        var c := r.retraction.value;
        if c.reason == "" || c.actor !in {"user", "system"} || c.source == "" || c.resulting != r.prior
          || c.at < r.occurredAt
          || (i + 1 < |rows| && c.at > rows[i + 1].occurredAt)
        {
          assert !RowFits(peers, s, rows, i);
          return false;
        }
        status := c.resulting;
        updatedAt := c.at;
      }
      if (r.kind in {Viewed, Accepted, Started, Skipped} && r.occurredAt >= s.expiresAt)
        || (r.kind == Expired && r.reasonCode == MIDNIGHT && r.occurredAt < s.expiresAt)
      {
        assert !RowFits(peers, s, rows, i);
        return false;
      }
    }
    accepted := state.Some? && state.value.status == status
      && state.value.sequence == (if latest.Some? then latest.value.sequence else 0)
      && state.value.latest == (if latest.Some? then Some(latest.value.id) else None)
      && state.value.terminal == Terminal(status) && state.value.updatedAt == updatedAt;
  }

  // ---- Acceptance implies a short valid path ----------------------------------------------------

  /** The interactions that were not retracted. */
  function Kept(rows: seq<Interaction>, n: nat): seq<Interaction>
    requires n <= |rows|
  {
    if n == 0 then []
    else if rows[n - 1].retraction.None? then Kept(rows, n - 1) + [rows[n - 1]]
    else Kept(rows, n - 1)
  }

  function EndOf(path: seq<Interaction>, n: nat): Status
    requires n <= |path|
  {
    if n == 0 then Suggested else path[n - 1].kind
  }

  /** Each interaction starts where the one before it ended, and is allowed from there. */
  ghost predicate IsPath(path: seq<Interaction>) {
    forall i: nat :: i < |path| ==> Follows(path, i)
  }

  predicate Follows(path: seq<Interaction>, i: nat)
    requires i < |path|
  {
    path[i].prior == EndOf(path, i) && path[i].kind in Transitions(path[i].prior)
  }

  lemma {:induction false} PathGrows(path: seq<Interaction>, r: Interaction)
    requires IsPath(path) && r.prior == EndOf(path, |path|) && r.kind in Transitions(r.prior)
    ensures IsPath(path + [r])
  {
    var longer := path + [r];
    forall i: nat | i < |longer| ensures Follows(longer, i) {
      assert EndOf(longer, i) == EndOf(path, i);
      if i < |path| {
        assert Follows(path, i);
      }
    }
  }

  lemma {:induction false} KeptIsPath(peers: map<Id, Suggestion>, s: Suggestion, rows: seq<Interaction>, n: nat)
    requires RowsFit(peers, s, rows) && n <= |rows|
    ensures IsPath(Kept(rows, n)) && EndOf(Kept(rows, n), |Kept(rows, n)|) == StatusAfter(rows, n)
  {
    if n > 0 {
      KeptIsPath(peers, s, rows, n - 1);
      assert RowFits(peers, s, rows, n - 1);
      if rows[n - 1].retraction.None? { PathGrows(Kept(rows, n - 1), rows[n - 1]); }
    }
  }

  lemma {:induction false} PathsProgress(path: seq<Interaction>, n: nat)
    requires IsPath(path) && n <= |path|
    ensures n <= Progress(EndOf(path, n))
  {
    if n > 0 {
      PathsProgress(path, n - 1);
      assert Follows(path, n - 1);
    }
  }

  /**
   Without its retracted interactions an accepted history is a valid path from `suggested` to the stored status, of at
   most four interactions, of which only the last can be terminal.
   */
  lemma {:induction false} AcceptedHistoryIsShortPath(
      peers: map<Id, Suggestion>, s: Suggestion, rows: seq<Interaction>, state: CurrentState)
    requires RowsFit(peers, s, rows) && state == Rebuilt(s, rows)
    ensures var path := Kept(rows, |rows|);
      && IsPath(path) && EndOf(path, |path|) == state.status && |path| <= 4
      && forall i :: 0 <= i < |path| - 1 ==> !Terminal(path[i].kind)
  {
    var path := Kept(rows, |rows|);
    KeptIsPath(peers, s, rows, |rows|);
    PathsProgress(path, |path|);
    forall i | 0 <= i < |path| - 1 ensures !Terminal(path[i].kind) {
      assert Follows(path, i + 1);
    }
  }

  // ---- The writers ------------------------------------------------------------------------------

  datatype Thread = Thread(suggestion: Suggestion, rows: seq<Interaction>, state: CurrentState)

  datatype Command =
    | Record(now: int, id: Id, kind: Status)
    | Start(now: int, id: Id)
    | Restart(now: int, id: Id, reason: string, unbound: bool, sessionOver: bool)
    | Finish(now: int, id: Id, kind: Status)
    | Replace(now: int, id: Id, replacement: Option<Id>, reasonCode: string)
    | ExpireDue(now: int, id: Id)
    | ExpireByRegeneration(now: int, id: Id)
    | Retract(now: int, id: Id, reason: string)

  function Row(t: Thread, kind: Status, now: int, id: Id, reasonCode: string, replacement: Option<Id>): Interaction {
    Interaction(id, t.state.sequence + 1, kind, t.state.status, kind, now, reasonCode, replacement, None)
  }

  /** Appending moves the current state along; a transition that is not allowed is refused. */
  function Appended(t: Thread, r: Interaction): Thread {
    if r.kind in Transitions(t.state.status)
    then t.(rows := t.rows + [r], state := CurrentState(r.kind, r.sequence, Some(r.id), Terminal(r.kind), r.occurredAt))
    else t
  }

  /** Only the latest interaction can be retracted, once. */
  predicate Retractable(t: Thread, id: Id) {
    t.rows != [] && t.state.latest == Some(id) && t.rows[|t.rows| - 1].retraction.None?
  }

  function Retracted(t: Thread, now: int, reason: string): Thread
    requires t.rows != []
  {
    var last := t.rows[|t.rows| - 1];
    var correction := InteractionCorrection(now, last.prior, reason, "user", "today_ui_correction");
    t.(rows := t.rows[|t.rows| - 1 := last.(retraction := Some(correction))],
       state := t.state.(status := last.prior, terminal := Terminal(last.prior), updatedAt := now))
  }

  predicate CanRestart(t: Thread) {
    t.rows != [] && t.state.status == Started && t.rows[|t.rows| - 1].kind == Started
      && t.rows[|t.rows| - 1].retraction.None?
  }

  /** The thread after a command; a refused command leaves it as it was. */
  ghost function Commanded(peers: map<Id, Suggestion>, t: Thread, c: Command): Thread {
    match c
    case Record(now, id, kind) =>
      if kind !in {Viewed, Accepted, Skipped} || now >= t.suggestion.expiresAt then t
        else Appended(t, Row(t, kind, now, id, "", None))
    case Start(now, id) =>
      if now >= t.suggestion.expiresAt then t else Appended(t, Row(t, Started, now, id, "", None))
    case Restart(now, id, reason, unbound, sessionOver) =>
      if !CanRestart(t) || !unbound || !sessionOver then t
      else
        var u := Retracted(t, now, reason);
        Appended(u, Row(u, Started, now, id, "", None))
    case Finish(now, id, kind) =>
      if kind !in {Completed, PartiallyCompleted} then t else Appended(t, Row(t, kind, now, id, "", None))
    case Replace(now, id, replacement, reasonCode) =>
      var r := Row(t, Replaced, now, id, reasonCode, replacement);
      if !ReplacementFits(peers, t.suggestion, r) then t else Appended(t, r)
    case ExpireDue(now, id) =>
      if now < t.suggestion.expiresAt || t.state.terminal then t
        else Appended(t, Row(t, Expired, now, id, MIDNIGHT, None))
    case ExpireByRegeneration(now, id) =>
      if t.state.terminal || t.state.status == Started then t
      else Appended(t, Row(t, Expired, now, id, "superseded_by_regeneration", None))
    case Retract(now, id, reason) =>
      if !Retractable(t, id) then t else Retracted(t, now, reason)
  }

  ghost predicate Validates(peers: map<Id, Suggestion>, t: Thread) {
    RowsFit(peers, t.suggestion, t.rows) && t.state == Rebuilt(t.suggestion, t.rows)
  }

  /** The clock has not gone back, and reasons are not empty. */
  predicate Timely(t: Thread, c: Command) {
    && c.now >= t.state.updatedAt && c.now >= t.suggestion.createdAt
    && (c.Restart? || c.Retract? ==> c.reason != "")
  }

  /** A restart carried out at the expiry or later. */
  predicate LateRestart(t: Thread, c: Command) {
    c.Restart? && CanRestart(t) && c.unbound && c.sessionOver && c.now >= t.suggestion.expiresAt
  }

  lemma {:induction false} AppendValidates(peers: map<Id, Suggestion>, t: Thread, r: Interaction)
    requires Validates(peers, t) && r.kind in Transitions(t.state.status)
    requires r.sequence == t.state.sequence + 1 && r.prior == t.state.status && r.resulting == r.kind
    requires r.retraction == None
    requires r.occurredAt >= t.state.updatedAt && r.occurredAt >= t.suggestion.createdAt
    ensures Validates(peers, Appended(t, r)) <==> ReplacementFits(peers, t.suggestion, r) && ExpiryFits(t.suggestion, r)
  {
    var u := Appended(t, r);
    var n := |t.rows|;
    forall i: nat | i < n ensures RowFits(peers, u.suggestion, u.rows, i) {
      assert RowFits(peers, t.suggestion, t.rows, i);
    }
    assert t.state.sequence == n by { assert n > 0 ==> RowFits(peers, t.suggestion, t.rows, n - 1); }
    assert RowFits(peers, u.suggestion, u.rows, n) <==>
      ReplacementFits(peers, t.suggestion, r) && ExpiryFits(t.suggestion, r);
  }

  lemma {:induction false} RetractValidates(peers: map<Id, Suggestion>, t: Thread, now: int, reason: string)
    requires Validates(peers, t) && t.rows != [] && t.rows[|t.rows| - 1].retraction == None
    requires now >= t.state.updatedAt && reason != ""
    ensures Validates(peers, Retracted(t, now, reason))
  {
    var u := Retracted(t, now, reason);
    forall i: nat | i < |u.rows| ensures RowFits(peers, u.suggestion, u.rows, i) {
      assert RowFits(peers, t.suggestion, t.rows, i);
    }
  }

  /** One command keeps the thread acceptable exactly when it is not a late restart. */
  lemma {:induction false} CommandValidatesIff(peers: map<Id, Suggestion>, t: Thread, c: Command)
    requires Validates(peers, t) && Timely(t, c)
    ensures Validates(peers, Commanded(peers, t, c)) <==> !LateRestart(t, c)
  {
    match c
    case Record(now, id, kind) => if kind in Transitions(t.state.status) {
      AppendValidates(peers, t, Row(t, kind, now, id, "", None));
    }
    case Start(now, id) => if Started in Transitions(t.state.status) {
      AppendValidates(peers, t, Row(t, Started, now, id, "", None));
    }
    case Restart(now, id, reason, unbound, sessionOver) => if CanRestart(t) && unbound && sessionOver {
      RestartValidatesIff(peers, t, c);
    }
    case Finish(now, id, kind) => if kind in Transitions(t.state.status) {
      AppendValidates(peers, t, Row(t, kind, now, id, "", None));
    }
    case Replace(now, id, replacement, reasonCode) =>
      if Replaced in Transitions(t.state.status) {
        AppendValidates(peers, t, Row(t, Replaced, now, id, reasonCode, replacement));
      }
    case ExpireDue(now, id) => if Expired in Transitions(t.state.status) {
      AppendValidates(peers, t, Row(t, Expired, now, id, MIDNIGHT, None));
    }
    case ExpireByRegeneration(now, id) =>
      if Expired in Transitions(t.state.status) {
        AppendValidates(peers, t, Row(t, Expired, now, id, "superseded_by_regeneration", None));
      }
    case Retract(now, id, reason) => if Retractable(t, id) { RetractValidates(peers, t, now, reason); }
  }

  lemma {:induction false} RestartValidatesIff(peers: map<Id, Suggestion>, t: Thread, c: Command)
    requires Validates(peers, t) && Timely(t, c) && c.Restart? && CanRestart(t) && c.unbound && c.sessionOver
    ensures Validates(peers, Commanded(peers, t, c)) <==> c.now < t.suggestion.expiresAt
  {
    RetractValidates(peers, t, c.now, c.reason);
    var u := Retracted(t, c.now, c.reason);
    assert RowFits(peers, t.suggestion, t.rows, |t.rows| - 1);
    AppendValidates(peers, u, Row(u, Started, c.now, c.id, "", None));
  }

  // ---- Runs -------------------------------------------------------------------------------------

  /** A thread from the generation of its suggestion on. */
  ghost predicate IsHistory(peers: map<Id, Suggestion>, run: seq<Thread>, commands: seq<Command>) {
    && |run| == |commands| + 1
    && run[0].rows == [] && run[0].state == Rebuilt(run[0].suggestion, [])
    && forall i: nat :: i < |commands| ==>
      Timely(run[i], commands[i]) && run[i + 1] == Commanded(peers, run[i], commands[i])
  }

  /** Nothing removes a row that does not fit: its retraction does not change the time it happened. */
  ghost predicate LateStart(t: Thread) {
    exists i: nat :: i < |t.rows| && t.rows[i].kind == Started && t.rows[i].occurredAt >= t.suggestion.expiresAt
  }

  lemma {:induction false} LateStartsStay(peers: map<Id, Suggestion>, t: Thread, c: Command)
    requires LateStart(t)
    ensures LateStart(Commanded(peers, t, c))
  {
    var i: nat :| i < |t.rows| && t.rows[i].kind == Started && t.rows[i].occurredAt >= t.suggestion.expiresAt;
    var u := Commanded(peers, t, c);
    assert i < |u.rows| && u.rows[i].kind == Started && u.rows[i].occurredAt >= u.suggestion.expiresAt;
  }

  lemma {:induction false} LateRestartStartsLate(peers: map<Id, Suggestion>, t: Thread, c: Command)
    requires Validates(peers, t) && LateRestart(t, c)
    ensures LateStart(Commanded(peers, t, c))
  {
    assert RowFits(peers, t.suggestion, t.rows, |t.rows| - 1);
    var u := Commanded(peers, t, c);
    assert u.rows[|t.rows|].kind == Started && u.rows[|t.rows|].occurredAt == c.now;
  }

  lemma {:induction false} LateStartsAreRejected(peers: map<Id, Suggestion>, t: Thread)
    requires LateStart(t)
    ensures !Validates(peers, t)
  {
    var i: nat :| i < |t.rows| && t.rows[i].kind == Started && t.rows[i].occurredAt >= t.suggestion.expiresAt;
    assert !RowFits(peers, t.suggestion, t.rows, i);
  }

  lemma {:induction false} EitherValidOrLate(
      peers: map<Id, Suggestion>, run: seq<Thread>, commands: seq<Command>, n: nat)
    requires IsHistory(peers, run, commands) && n < |run|
    ensures Validates(peers, run[n]) || LateStart(run[n])
    ensures Validates(peers, run[n]) <==> forall i: nat :: i < n ==> !LateRestart(run[i], commands[i])
  {
    if n > 0 {
      EitherValidOrLate(peers, run, commands, n - 1);
      var t, c := run[n - 1], commands[n - 1];
      assert run[n - 1 + 1] == Commanded(peers, t, c);
      if Validates(peers, t) {
        CommandValidatesIff(peers, t, c);
        if LateRestart(t, c) { LateRestartStartsLate(peers, t, c); }
      } else {
        LateStartsStay(peers, t, c);
        LateStartsAreRejected(peers, run[n]);
      }
    }
  }

  /**
   The validator accepts a thread the writers produced exactly when no legacy restart was carried out at or after the
   suggestion's expiry.
   */
  lemma {:induction false} WritersAreAcceptedIff(
      peers: map<Id, Suggestion>, run: seq<Thread>, commands: seq<Command>, n: nat)
    requires IsHistory(peers, run, commands) && n < |run|
    ensures Validates(peers, run[n]) <==> forall i: nat :: i < n ==> !LateRestart(run[i], commands[i])
  {
    EitherValidOrLate(peers, run, commands, n);
  }

  /** Started before the expiry and restarted at it or later: the writers produce this, and the validator rejects it. */
  lemma {:induction false} LateRestartsHappen(
      peers: map<Id, Suggestion>, s: Suggestion, start: int, restart: int, first: Id, second: Id, reason: string)
    returns (run: seq<Thread>, commands: seq<Command>)
    requires s.createdAt <= start < s.expiresAt <= restart && reason != ""
    ensures commands == [Start(start, first), Restart(restart, second, reason, true, true)]
    ensures IsHistory(peers, run, commands) && run[0].suggestion == s
    ensures LateRestart(run[1], commands[1]) && !Validates(peers, run[2])
  {
    commands := [Start(start, first), Restart(restart, second, reason, true, true)];
    var generated := Thread(s, [], Rebuilt(s, []));
    var started := Commanded(peers, generated, commands[0]);
    run := [generated, started, Commanded(peers, started, commands[1])];
    WritersAreAcceptedIff(peers, run, commands, 2);
  }

  lemma {:induction false} CommandKeepsRebuilt(peers: map<Id, Suggestion>, t: Thread, c: Command)
    requires t.state == Rebuilt(t.suggestion, t.rows)
    ensures Commanded(peers, t, c).state == Rebuilt(t.suggestion, Commanded(peers, t, c).rows)
    ensures Commanded(peers, t, c).suggestion == t.suggestion
  {}

  /** Rebuilding the current state from the rows gives the live one, late restart or not. */
  lemma {:induction false} RebuildRestoresState(
      peers: map<Id, Suggestion>, run: seq<Thread>, commands: seq<Command>, n: nat)
    requires IsHistory(peers, run, commands) && n < |run|
    ensures run[n].state == Rebuilt(run[n].suggestion, run[n].rows)
  {
    if n > 0 {
      RebuildRestoresState(peers, run, commands, n - 1);
      assert run[n - 1 + 1] == Commanded(peers, run[n - 1], commands[n - 1]);
      CommandKeepsRebuilt(peers, run[n - 1], commands[n - 1]);
    }
  }

  // ---- The commands on the stored rows ----------------------------------------------------------

  class SuggestionRows {
    const suggestion: Suggestion
    var rows: seq<Interaction>
    var state: CurrentState

    function Contents(): Thread
      reads this
    {
      Thread(suggestion, rows, state)
    }

    constructor (suggestion: Suggestion)
      ensures Contents() == Thread(suggestion, [], Rebuilt(suggestion, []))
    {
      this.suggestion, rows := suggestion, [];
      state := CurrentState(Suggested, 0, None, false, suggestion.createdAt);
    }

    /** Append one interaction, unless the current status does not allow it. */
    method AppendInteraction(
        kind: Status, now: int, id: Id, reasonCode: string, replacement: Option<Id>) returns (appended: bool)
      modifies this
      ensures appended <==> kind in Transitions(old(state).status)
      ensures Contents() == Appended(old(Contents()), Row(old(Contents()), kind, now, id, reasonCode, replacement))
    {
      if kind !in Transitions(state.status) {
        return false;
      }
      var interaction :=
        Interaction(id, state.sequence + 1, kind, state.status, kind, now, reasonCode, replacement, None);
      rows := rows + [interaction];
      state := state.(status := kind);
      state := state.(sequence := interaction.sequence);
      state := state.(latest := Some(interaction.id));
      state := state.(terminal := Terminal(kind));
      state := state.(updatedAt := now);
      appended := true;
    }

    method CorrectInteraction(now: int, id: Id, reason: string) returns (corrected: bool)
      modifies this
      ensures corrected <==> Retractable(old(Contents()), id)
      ensures Contents() == if corrected then Retracted(old(Contents()), now, reason) else old(Contents())
    {
      if rows == [] || state.latest != Some(id) || rows[|rows| - 1].retraction.Some? {
        return false;
      }
      var last := rows[|rows| - 1];
      var correction := InteractionCorrection(now, last.prior, reason, "user", "today_ui_correction");
      rows := rows[|rows| - 1 := last.(retraction := Some(correction))];
      state := state.(status := correction.resulting);
      state := state.(terminal := Terminal(correction.resulting));
      state := state.(updatedAt := now);
      corrected := true;
    }

    method RecordInteraction(peers: map<Id, Suggestion>, now: int, id: Id, kind: Status) returns (recorded: bool)
      modifies this
      ensures Contents() == Commanded(peers, old(Contents()), Record(now, id, kind))
      ensures recorded <==>
        kind in {Viewed, Accepted, Skipped} && now < suggestion.expiresAt && kind in Transitions(old(state).status)
      ensures recorded <==> |rows| == |old(rows)| + 1
    {
      if kind !in {Viewed, Accepted, Skipped} || now >= suggestion.expiresAt {
        return false;
      }
      recorded := AppendInteraction(kind, now, id, "", None);
    }

    /** Withdraw a start that has no execution bound to it and whose session is over, and start again, at any time. */
    method RestartLegacyAssessment(
        peers: map<Id, Suggestion>, now: int, id: Id, reason: string, unbound: bool,
        sessionOver: bool) returns (started: bool)
      requires rows != [] ==> state.latest == Some(rows[|rows| - 1].id)
      modifies this
      ensures Contents() == Commanded(peers, old(Contents()), Restart(now, id, reason, unbound, sessionOver))
      ensures started <==>
        && CanRestart(old(Contents())) && unbound && sessionOver
        && Started in Transitions(old(rows)[|old(rows)| - 1].prior)
      ensures started <==> |rows| == |old(rows)| + 1
    {
      if rows == [] || state.status != Started {
        return false;
      }
      if rows[|rows| - 1].kind != Started || rows[|rows| - 1].retraction.Some? {
        return false;
      }
      if !unbound || !sessionOver {
        return false;
      }
      started := CorrectInteraction(now, rows[|rows| - 1].id, reason);
      started := AppendInteraction(Started, now, id, "", None);
    }

    method ExpireDueSuggestion(peers: map<Id, Suggestion>, now: int, id: Id) returns (expired: bool)
      modifies this
      ensures Contents() == Commanded(peers, old(Contents()), ExpireDue(now, id))
      ensures expired <==>
        now >= suggestion.expiresAt && !old(state).terminal && Expired in Transitions(old(state).status)
      ensures expired <==> |rows| == |old(rows)| + 1
    {
      if suggestion.expiresAt > now || state.terminal {
        return false;
      }
      expired := AppendInteraction(Expired, now, id, MIDNIGHT, None);
    }

    /** Whatever the stored state was, the validator now accepts the thread exactly when its rows fit. */
    method RebuildCurrentState()
      modifies this`state
      ensures state == Rebuilt(suggestion, rows)
      ensures state.status == StatusAfter(rows, |rows|) && state.updatedAt == TimeAfter(suggestion, rows, |rows|)
      ensures forall peers :: Validates(peers, Contents()) <==> RowsFit(peers, suggestion, rows)
    {
      if rows == [] {
        state := CurrentState(Suggested, 0, None, false, suggestion.createdAt);
      } else {
        var latest := rows[|rows| - 1];
        var status := if latest.retraction.Some? then latest.retraction.value.resulting else latest.resulting;
        var updated := if latest.retraction.Some? then latest.retraction.value.at else latest.occurredAt;
        state := CurrentState(status, latest.sequence, Some(latest.id), Terminal(status), updated);
      }
    }
  }
}

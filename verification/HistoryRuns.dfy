/** Every step that touches the history keeps its invariant, and so does every run of steps. */
module HistoryRuns {
  import opened Base
  import opened Model
  import opened Meaning
  import opened Downgrade
  import opened Evaluation
  import opened History
  import opened HistoryKept

  // ---- Growth: rows may be appended to the log and to the run table; events and projections stay ---------

  lemma {:induction false} RunsOkGrow(s: Store, t: Store)
    requires RunsOk(s) && Grows(s, t)
    requires forall r :: r in t.runs[|s.runs|..] ==> RunOk(t.catalog, t.log, r)
    ensures RunsOk(t)
  {
    forall i | 0 <= i < |t.runs| ensures RunOk(t.catalog, t.log, t.runs[i]) {
      if i < |s.runs| {
        assert s.runs[i] == t.runs[i] && s.runs[i] in s.runs;
        PrefixMembers(s.log.evidence, t.log.evidence);
      } else {
        assert t.runs[|s.runs|..][i - |s.runs|] == t.runs[i];
      }
    }
  }

  lemma {:induction false} ScopeGrows(s: Store, t: Store, key: Key)
    requires Grows(s, t) && t.events == s.events && t.states == s.states && ScopeOk(s, key)
    ensures ScopeOk(t, key)
  {
    var es := EventsOf(s.events, key);
    ScopeHistoryGrows(s, t, es);
    if es != [] { assert EventOk(s, es[..|es| - 1], es[|es| - 1]); }
  }

  lemma {:induction false} GrowthKeepsHistory(s: Store, t: Store)
    requires HistoryOk(s) && Sound(t) && Grows(s, t) && RunsOk(t)
    requires t.events == s.events && t.states == s.states
    ensures HistoryOk(t)
  {
    forall key ensures ScopeOk(t, key) { ScopeGrows(s, t, key); }
  }

  // ---- One scope changes: it gains an event, or only its projection is refreshed -------------------------

  ghost predicate SameRows(s: Store, t: Store) {
    t.catalog == s.catalog && t.active == s.active && t.log == s.log && t.runs == s.runs
  }

  lemma {:induction false} OtherScopeUntouched(s: Store, t: Store, key: Key)
    requires SameRows(s, t) && Sound(s) && ScopeOk(s, key)
    requires EventsOf(t.events, key) == EventsOf(s.events, key)
    requires (key in t.states <==> key in s.states) && (key in s.states ==> t.states[key] == s.states[key])
    ensures ScopeOk(t, key)
  {
    ScopeHistoryGrows(s, t, EventsOf(s.events, key));
  }

  ghost predicate NewEventOk(s: Store, e: Event, p: Projection) {
    && EventOk(s, EventsOf(s.events, e.key), e)
    && ProjectionMatchesRun(s, e.key, p)
    && ProjectionMatchesEvent(s, p, e, |EventsOf(s.events, e.key)| + 1)
  }

  lemma {:induction false} ScopeGainsEvent(s: Store, t: Store, e: Event, p: Projection)
    requires SameRows(s, t) && Sound(s) && ScopeOk(s, e.key) && NewEventOk(s, e, p)
    requires t.events == s.events + [e] && t.states == s.states[e.key := p]
    ensures ScopeOk(t, e.key)
  {
    EventsOfAppend(s.events, e, e.key);
    ScopeHistoryExtends(s, EventsOf(s.events, e.key), e);
    ScopeHistoryGrows(s, t, EventsOf(t.events, e.key));
  }

  lemma {:induction false} ScopeAfterEvent(s: Store, t: Store, e: Event, p: Projection, key: Key)
    requires SameRows(s, t) && HistoryOk(s) && NewEventOk(s, e, p)
    requires t.events == s.events + [e] && t.states == s.states[e.key := p]
    ensures ScopeOk(t, key)
  {
    if key == e.key {
      ScopeGainsEvent(s, t, e, p);
    } else {
      EventsOfAppend(s.events, e, key);
      OtherScopeUntouched(s, t, key);
    }
  }

  lemma {:induction false} NewEventKeepsHistory(s: Store, t: Store, e: Event, p: Projection)
    requires SameRows(s, t) && HistoryOk(s) && NewEventOk(s, e, p) && Sound(t)
    requires t.events == s.events + [e] && t.states == s.states[e.key := p]
    ensures HistoryOk(t)
  {
    forall key ensures ScopeOk(t, key) { ScopeAfterEvent(s, t, e, p, key); }
  }

  ghost predicate RefreshOk(s: Store, key: Key, p: Projection) {
    var es := EventsOf(s.events, key);
    && key in s.states
    && ProjectionMatchesRun(s, key, p)
    && es != [] && ProjectionMatchesEvent(s, p, es[|es| - 1], |es|)
  }

  lemma {:induction false} ScopeAfterRefresh(s: Store, t: Store, refreshed: Key, p: Projection, key: Key)
    requires SameRows(s, t) && HistoryOk(s) && RefreshOk(s, refreshed, p)
    requires t.events == s.events && t.states == s.states[refreshed := p]
    ensures ScopeOk(t, key)
  {
    assert ScopeOk(s, key);
    ScopeHistoryGrows(s, t, EventsOf(s.events, key));
  }

  lemma {:induction false} RefreshKeepsHistory(s: Store, t: Store, refreshed: Key, p: Projection)
    requires SameRows(s, t) && HistoryOk(s) && RefreshOk(s, refreshed, p) && Sound(t)
    requires t.events == s.events && t.states == s.states[refreshed := p]
    ensures HistoryOk(t)
  {
    forall key ensures ScopeOk(t, key) { ScopeAfterRefresh(s, t, refreshed, p, key); }
  }

  /** Storing a level of its own definition's scale keeps the store sound. */
  lemma {:induction false} RecordIsSound(s: Store, run: Run, replay: bool, meaningful: Option<int>)
    requires Sound(s)
    requires run.decision.level.Some? ==> run.decision.level.value in LevelsOf(s.catalog, run.definition)
    ensures Sound(Record(s, run, replay, meaningful))
  {}

  // ---- Evaluation ------------------------------------------------------------------------------------------

  lemma {:induction false} LiveEventIsOk(s: Store, d: Definition, key: Key, cutoff: int, stamp: int)
    requires HistoryOk(s) && Evaluable(s, d, key) && ClockMoves(s, key, cutoff, stamp) && !IsReplay(s, key, cutoff)
    requires key.competency in s.active
    ensures EventOk(
      s.(runs := s.runs + [RunFor(s, d, key, cutoff, stamp)]), EventsOf(s.events, key),
      LiveEvent(s, d, key, cutoff, stamp))
  {
    RunIsOk(s, d, key, cutoff, stamp);
    LiveEventContinues(s, RunFor(s, d, key, cutoff, stamp));
    LiveEventIsJustified(s, d, key, cutoff, stamp);
  }

  /** An event made for a run follows the scope's log and matches the run, which it points at. */
  lemma {:induction false} LiveEventContinues(s: Store, run: Run)
    requires HistoryOk(s)
    ensures var e, runs := EventFor(Cached(s, run.key), LatestEvent(s.events, run.key), run, |s.runs|), s.runs + [run];
      FollowsOn(EventsOf(s.events, run.key), e) && MatchesRun(runs, e) && SeenBy(runs, e) == run.evidence
  {
    BeforeIsLast(s, run.key);
  }

  lemma {:induction false} DecidedLevelBelongs(s: Store, d: Definition, key: Key, cutoff: int, stamp: int)
    requires Evaluable(s, d, key)
    ensures var run := RunFor(s, d, key, cutoff, stamp);
      run.decision.level.Some? ==> run.decision.level.value in LevelsOf(s.catalog, run.definition)
  {
    AssessmentKnowsLevels(s, d, key, cutoff);
    OutcomeLevel(s, d, key, cutoff);
  }

  lemma {:induction false} ProjectionRepeatsRun(s: Store, run: Run, meaningful: Option<int>, n: nat)
    ensures ProjectionMatchesRun(s.(runs := s.runs + [run]), run.key, ProjectionFor(run, |s.runs|, meaningful, n))
  {}

  /** A run that changes nothing leaves the projection at the scope's last event. */
  lemma {:induction false} UnchangedRefreshes(s: Store, run: Run, meaningful: Option<int>, last: Event, n: nat)
    requires run.key in s.states && ProjectionMatchesEvent(s, s.states[run.key], last, n)
    requires !Changed(Some(s.states[run.key]), LatestEvent(s.events, run.key), run)
    ensures ProjectionMatchesEvent(s.(runs := s.runs + [run]), ProjectionFor(run, |s.runs|, meaningful, n), last, n)
  {}

  /** A run that changes nothing has a projection to leave where it is. */
  lemma {:induction false} UnchangedIsCached(s: Store, run: Run)
    requires HistoryOk(s) && !Changed(Cached(s, run.key), LatestEvent(s.events, run.key), run)
    ensures var es := EventsOf(s.events, run.key);
      run.key in s.states && es != [] && ProjectionMatchesEvent(s, s.states[run.key], es[|es| - 1], |es|)
  {
    BeforeIsLast(s, run.key);
    assert InStep(s, run.key) by { assert ScopeOk(s, run.key); }
  }

  lemma {:induction false} UnchangedFits(s: Store, run: Run, meaningful: Option<int>)
    requires HistoryOk(s) && !Changed(Cached(s, run.key), LatestEvent(s.events, run.key), run)
    ensures RefreshOk(s.(runs := s.runs + [run]), run.key,
      ProjectionFor(run, |s.runs|, meaningful, |EventsOf(s.events, run.key)|))
  {
    var es := EventsOf(s.events, run.key);
    UnchangedIsCached(s, run);
    ProjectionRepeatsRun(s, run, meaningful, |es|);
    UnchangedRefreshes(s, run, meaningful, es[|es| - 1], |es|);
  }

  /** What recording a run needs: its decided level exists and the event it makes fits the events before. */
  ghost predicate Recordable(s: Store, run: Run) {
    && HistoryOk(s) && HistoryOk(s.(runs := s.runs + [run]))
    && (run.decision.level.Some? ==> run.decision.level.value in LevelsOf(s.catalog, run.definition))
    && var previous, latest := Cached(s, run.key), LatestEvent(s.events, run.key);
      Changed(previous, latest, run) ==>
        EventOk(s.(runs := s.runs + [run]), EventsOf(s.events, run.key), EventFor(previous, latest, run, |s.runs|))
  }

  lemma {:induction false} ChangeFits(s: Store, run: Run, meaningful: Option<int>)
    requires Recordable(s, run) && Changed(Cached(s, run.key), LatestEvent(s.events, run.key), run)
    ensures var previous, latest := Cached(s, run.key), LatestEvent(s.events, run.key);
      NewEventOk(s.(runs := s.runs + [run]), EventFor(previous, latest, run, |s.runs|),
        ProjectionFor(run, |s.runs|, meaningful, BeforeOf(previous, latest).version + 1))
  {
    BeforeIsLast(s, run.key);
    ProjectionRepeatsRun(s, run, meaningful, |EventsOf(s.events, run.key)| + 1);
  }

  /** `t` is `s1` with the event and the row its run makes. */
  ghost predicate Gains(s1: Store, t: Store, e: Event, p: Projection) {
    t == s1.(events := s1.events + [e], states := s1.states[e.key := p])
  }

  lemma {:induction false} ChangeGains(s: Store, run: Run, meaningful: Option<int>)
    requires Changed(Cached(s, run.key), LatestEvent(s.events, run.key), run)
    ensures var previous, latest := Cached(s, run.key), LatestEvent(s.events, run.key);
      Gains(s.(runs := s.runs + [run]), Record(s, run, false, meaningful), EventFor(previous, latest, run, |s.runs|),
        ProjectionFor(run, |s.runs|, meaningful, BeforeOf(previous, latest).version + 1))
  {}

  lemma {:induction false} GainKeepsHistory(s1: Store, t: Store, e: Event, p: Projection)
    requires HistoryOk(s1) && NewEventOk(s1, e, p) && Sound(t) && Gains(s1, t, e, p)
    ensures HistoryOk(t)
  {
    NewEventKeepsHistory(s1, t, e, p);
  }

  lemma {:induction false} ChangeKeepsHistory(s: Store, run: Run, meaningful: Option<int>)
    requires Recordable(s, run) && Changed(Cached(s, run.key), LatestEvent(s.events, run.key), run)
    ensures HistoryOk(Record(s, run, false, meaningful))
  {
    var previous, latest := Cached(s, run.key), LatestEvent(s.events, run.key);
    RecordIsSound(s, run, false, meaningful);
    ChangeFits(s, run, meaningful);
    ChangeGains(s, run, meaningful);
    GainKeepsHistory(s.(runs := s.runs + [run]), Record(s, run, false, meaningful),
      EventFor(previous, latest, run, |s.runs|),
      ProjectionFor(run, |s.runs|, meaningful, BeforeOf(previous, latest).version + 1));
  }

  lemma {:induction false} RefreshedKeepsHistory(s: Store, run: Run, meaningful: Option<int>)
    requires Recordable(s, run) && !Changed(Cached(s, run.key), LatestEvent(s.events, run.key), run)
    ensures HistoryOk(Record(s, run, false, meaningful))
  {
    var n := BeforeOf(Cached(s, run.key), LatestEvent(s.events, run.key)).version;
    RecordIsSound(s, run, false, meaningful);
    BeforeIsLast(s, run.key);
    UnchangedFits(s, run, meaningful);
    RefreshKeepsHistory(s.(runs := s.runs + [run]), Record(s, run, false, meaningful), run.key,
      ProjectionFor(run, |s.runs|, meaningful, n));
  }

  lemma {:induction false} RecordKeepsHistory(s: Store, run: Run, meaningful: Option<int>)
    requires Recordable(s, run)
    ensures HistoryOk(Record(s, run, false, meaningful))
  {
    if Changed(Cached(s, run.key), LatestEvent(s.events, run.key), run) {
      ChangeKeepsHistory(s, run, meaningful);
    } else {
      RefreshedKeepsHistory(s, run, meaningful);
    }
  }

  lemma {:induction false} AnyRunKeepsHistory(s: Store, t: Store, run: Run)
    requires HistoryOk(s) && RunOk(s.catalog, s.log, run) && t == s.(runs := s.runs + [run])
    ensures HistoryOk(t)
  {
    RunsOkGrow(s, t);
    GrowthKeepsHistory(s, t);
  }

  lemma {:induction false} RunKeepsHistory(s: Store, d: Definition, key: Key, cutoff: int, stamp: int)
    requires HistoryOk(s) && Evaluable(s, d, key)
    ensures HistoryOk(s.(runs := s.runs + [RunFor(s, d, key, cutoff, stamp)]))
  {
    var run := RunFor(s, d, key, cutoff, stamp);
    RunIsOk(s, d, key, cutoff, stamp);
    AnyRunKeepsHistory(s, s.(runs := s.runs + [run]), run);
  }

  lemma {:induction false} LiveEvaluationKeepsHistory(
      s: Store, d: Definition, key: Key, cutoff: int, stamp: int, meaningful: Option<int>)
    requires HistoryOk(s) && Evaluable(s, d, key) && ClockMoves(s, key, cutoff, stamp) && !IsReplay(s, key, cutoff)
    requires key.competency in s.active
    ensures HistoryOk(Record(s, RunFor(s, d, key, cutoff, stamp), false, meaningful))
  {
    RunKeepsHistory(s, d, key, cutoff, stamp);
    DecidedLevelBelongs(s, d, key, cutoff, stamp);
    LiveEventIsOk(s, d, key, cutoff, stamp);
    RecordKeepsHistory(s, RunFor(s, d, key, cutoff, stamp), meaningful);
  }

  /** An evaluation changes nothing or records its run. */
  lemma {:induction false} EvaluationRecords(s: Store, d: Definition, dimension: Option<Id>, cutoff: int, stamp: int)
    returns (meaningful: Option<int>)
    requires Evaluable(s, d, Key(d.competency, dimension))
    ensures var key := Key(d.competency, dimension);
      EvaluateScope(s, d, dimension, cutoff, stamp)
        in {s, Record(s, RunFor(s, d, key, cutoff, stamp), IsReplay(s, key, cutoff), meaningful)}
  {
    var key := Key(d.competency, dimension);
    meaningful := LastMeaningful(s, d, key, cutoff);
  }

  /** Evaluating one scope, live or as a historical replay, keeps the history invariant. */
  lemma {:induction false} EvaluationKeepsHistory(
      s: Store, d: Definition, dimension: Option<Id>, cutoff: int, stamp: int)
    requires HistoryOk(s) && d.competency in s.active
    requires Evaluable(s, d, Key(d.competency, dimension))
    requires IsReplay(s, Key(d.competency, dimension), cutoff)
      || ClockMoves(s, Key(d.competency, dimension), cutoff, stamp)
    ensures HistoryOk(EvaluateScope(s, d, dimension, cutoff, stamp))
  {
    var key := Key(d.competency, dimension);
    var meaningful := EvaluationRecords(s, d, dimension, cutoff, stamp);
    if IsReplay(s, key, cutoff) {
      RunKeepsHistory(s, d, key, cutoff, stamp);
    } else {
      LiveEvaluationKeepsHistory(s, d, key, cutoff, stamp, meaningful);
    }
  }

  // ---- Reseeding -------------------------------------------------------------------------------------------

  function HistoryKeys(events: seq<Event>): set<Key> { set e | e in events :: e.key }

  /** Projections dropped, then restored from the latest event of every scope of an active competency. */
  function Reseed(s: Store): Store
    requires forall e :: e in s.events ==> e.run < |s.runs|
  {
    s.(states := map key | key in HistoryKeys(s.events) && key.competency in s.active ::
      var e := LatestEvent(s.events, key);
      Restored(s.runs, s.log.evidence, e.value))
  }

  lemma {:induction false} HistoryHasRuns(s: Store)
    requires HistoryOk(s)
    ensures forall e :: e in s.events ==> e.run < |s.runs| && e.key.competency in s.active
  {
    forall e | e in s.events ensures e.run < |s.runs| && e.key.competency in s.active {
      var es := EventsOf(s.events, e.key);
      assert ScopeOk(s, e.key);
      var i :| 0 <= i < |es| && es[i] == e;
      assert EventOk(s, es[..i], es[i]);
    }
  }

  /** What a restored projection shares with the live one it replaces. */
  predicate SameStanding(p: Projection, q: Projection) {
    p.definition == q.definition && p.level == q.level && p.status == q.status && p.confidence == q.confidence
    && p.confidenceFacts == q.confidenceFacts && p.version == q.version
  }

  /** `t` caches the scope with the standing `s` caches it with. */
  predicate ScopeRestored(s: Store, t: Store, key: Key) {
    && (key in t.states <==> key in s.states)
    && (key in s.states && key in t.states ==> SameStanding(t.states[key], s.states[key]))
  }

  /** The row is that of the scope's last event: its run, what that run saw, and when its decisive evidence occurred. */
  ghost predicate RestoredFrom(s: Store, key: Key, p: Projection) {
    var es := EventsOf(s.events, key);
    && es != []
    && var last := es[|es| - 1];
       && p.run == last.run && last.run < |s.runs|
       && p.evidence == s.runs[last.run].evidence && p.lastEvaluated == s.runs[last.run].cutoff
       && IsLatest(s.log, s.runs[last.run].decision.decisive, p.lastMeaningful)
  }

  lemma {:induction false} LastEventIs(s: Store, key: Key)
    requires HistoryOk(s)
    ensures key in HistoryKeys(s.events) <==> EventsOf(s.events, key) != []
    ensures EventsOf(s.events, key) != [] ==>
      LatestEvent(s.events, key) == Some(EventsOf(s.events, key)[|EventsOf(s.events, key)| - 1])
  {
    assert ScopeOk(s, key);
    HistoryIsNumbered(s, key);
    LatestIsLast(s.events, key);
    if EventsOf(s.events, key) != [] { assert EventsOf(s.events, key)[0] in EventsOf(s.events, key); }
  }

  lemma {:induction false} RestoredRow(s: Store, key: Key)
    requires HistoryOk(s) && forall e :: e in s.events ==> e.run < |s.runs|
    ensures key in Reseed(s).states ==> RestoredFrom(s, key, Reseed(s).states[key])
  {
    LastEventIs(s, key);
    if key in Reseed(s).states {
      var last := LatestEvent(s.events, key).value;
      assert Reseed(s).states[key] == Restored(s.runs, s.log.evidence, last);
      RestoredTime(s, last);
    }
  }

  lemma {:induction false} RestoredTime(s: Store, e: Event)
    requires e.run < |s.runs|
    ensures IsLatest(s.log, s.runs[e.run].decision.decisive, Restored(s.runs, s.log.evidence, e).lastMeaningful)
  {}

  lemma {:induction false} RestoredScope(s: Store, key: Key)
    requires HistoryOk(s) && forall e :: e in s.events ==> e.run < |s.runs| && e.key.competency in s.active
    ensures ScopeRestored(s, Reseed(s), key) && ScopeOk(Reseed(s), key)
  {
    var es, t := EventsOf(s.events, key), Reseed(s);
    assert ScopeOk(s, key);
    HistoryIsNumbered(s, key);
    LatestIsLast(s.events, key);
    ScopeHistoryGrows(s, t, es);
    if es != [] {
      assert es[|es| - 1] in s.events;
      assert EventOk(s, es[..|es| - 1], es[|es| - 1]);
    }
  }

  lemma {:induction false} ReseedIsSound(s: Store)
    requires Sound(s) && forall e :: e in s.events ==> e.run < |s.runs|
    ensures Sound(Reseed(s))
  {
    var t := Reseed(s);
    forall k | k in t.states && t.states[k].level.Some?
      ensures t.states[k].level.value in LevelsOf(t.catalog, t.states[k].definition)
    {
      assert LatestEvent(s.events, k).value in s.events;
    }
  }

  lemma {:induction false} ReseedKeepsHistory(s: Store)
    requires HistoryOk(s) && forall e :: e in s.events ==> e.run < |s.runs| && e.key.competency in s.active
    ensures HistoryOk(Reseed(s))
  {
    ReseedIsSound(s);
    forall key ensures ScopeOk(Reseed(s), key) { RestoredScope(s, key); }
  }

  /** Reseeding restores every scope's standing from history alone, and keeps the invariant. */
  lemma {:induction false} ReseedRestores(s: Store)
    requires HistoryOk(s)
    ensures forall e :: e in s.events ==> e.run < |s.runs|
    ensures forall key :: ScopeRestored(s, Reseed(s), key)
    ensures forall key :: key in Reseed(s).states ==> RestoredFrom(s, key, Reseed(s).states[key])
    ensures HistoryOk(Reseed(s))
  {
    HistoryHasRuns(s);
    forall key | key in Reseed(s).states ensures RestoredFrom(s, key, Reseed(s).states[key]) { RestoredRow(s, key); }
    forall key ensures ScopeRestored(s, Reseed(s), key) { RestoredScope(s, key); }
    ReseedKeepsHistory(s);
  }

  // ---- Runs ------------------------------------------------------------------------------------------------

  datatype Step =
    | Evaluate(definition: Id, dimension: Option<Id>, cutoff: int, stamp: int)
    | Append(rows: Log)
    | Activate(competency: Id, definition: Id)
    | ReseedAll

  function Appended(log: Log, rows: Log): Log {
    Log(log.evidence + rows.evidence, log.links + rows.links, log.retractions + rows.retractions,
      log.invalidations + rows.invalidations, log.linkRetractions + rows.linkRetractions)
  }

  /** When the system takes a step: active definitions are evaluated, clocks do not run backwards, keys stay unique. */
  ghost predicate Enabled(s: Store, step: Step) {
    && Sound(s)
    && match step
    case Evaluate(definition, dimension, cutoff, stamp) =>
      && definition in s.catalog
      && var d := s.catalog[definition];
         var key := Key(d.competency, dimension);
         && d.competency in s.active && s.active[d.competency] == definition
         && (dimension.None? || dimension.value in d.dimensions)
         && (IsReplay(s, key, cutoff) || ClockMoves(s, key, cutoff, stamp))
    case Append(rows) => Sound(s.(log := Appended(s.log, rows)))
    case Activate(competency, definition) => definition in s.catalog && s.catalog[definition].competency == competency
    case ReseedAll => forall e :: e in s.events ==> e.run < |s.runs|
  }

  ghost function Next(s: Store, step: Step): Store
    requires Enabled(s, step)
  {
    match step
    case Evaluate(definition, dimension, cutoff, stamp) =>
      EvaluateScope(s, s.catalog[definition], dimension, cutoff, stamp)
    case Append(rows) => s.(log := Appended(s.log, rows))
    case Activate(competency, definition) => s.(active := s.active[competency := definition])
    case ReseedAll => Reseed(s)
  }

  lemma {:induction false} StepKeepsHistory(s: Store, step: Step)
    requires HistoryOk(s) && Enabled(s, step)
    ensures HistoryOk(Next(s, step))
  {
    match step {
      case Evaluate(definition, dimension, cutoff, stamp) =>
        EvaluationKeepsHistory(s, s.catalog[definition], dimension, cutoff, stamp);
      case Append(rows) => AppendKeepsHistory(s, rows);
      case Activate(competency, definition) => ActivationKeepsHistory(s, competency, definition);
      case ReseedAll => ReseedRestores(s);
    }
  }

  lemma {:induction false} AppendKeepsHistory(s: Store, rows: Log)
    requires HistoryOk(s) && Sound(s.(log := Appended(s.log, rows)))
    ensures HistoryOk(s.(log := Appended(s.log, rows)))
  {
    var t := s.(log := Appended(s.log, rows));
    RunsOkGrow(s, t);
    GrowthKeepsHistory(s, t);
  }

  lemma {:induction false} ActivationKeepsHistory(s: Store, competency: Id, definition: Id)
    requires HistoryOk(s) && definition in s.catalog && s.catalog[definition].competency == competency
    ensures HistoryOk(s.(active := s.active[competency := definition]))
  {
    var t := s.(active := s.active[competency := definition]);
    RunsOkGrow(s, t);
    GrowthKeepsHistory(s, t);
  }

  /** `trace` is a run of enabled steps from a store in which nothing has been evaluated yet. */
  ghost predicate IsRun(trace: seq<Store>, steps: seq<Step>) {
    && |trace| == |steps| + 1
    && Initial(trace[0])
    && forall i :: 0 <= i < |steps| ==> Enabled(trace[i], steps[i]) && trace[i + 1] == Next(trace[i], steps[i])
  }

  ghost predicate Initial(s: Store) { Sound(s) && s.runs == [] && s.events == [] && s.states == map[] }

  lemma {:induction false} NoHistoryIsOk(s: Store)
    requires Initial(s)
    ensures HistoryOk(s)
  {
    forall key ensures ScopeOk(s, key) {}
  }

  lemma {:induction false} StaysOk(us: seq<Store>, n: nat)
    requires n < |us| && HistoryOk(us[0])
    requires forall i: nat :: i + 1 < |us| && HistoryOk(us[i]) ==> HistoryOk(us[i + 1])
    ensures HistoryOk(us[n])
  {
    if n > 0 { StaysOk(us, n - 1); }
  }

  /** Every state of every run from an empty history satisfies the history invariant. */
  lemma {:induction false} EveryRunKeepsHistory(trace: seq<Store>, steps: seq<Step>, n: nat)
    requires IsRun(trace, steps) && n < |trace|
    ensures HistoryOk(trace[n])
  {
    NoHistoryIsOk(trace[0]);
    forall i: nat | i + 1 < |trace| && HistoryOk(trace[i]) ensures HistoryOk(trace[i + 1]) {
      StepKeepsHistory(trace[i], steps[i]);
    }
    StaysOk(trace, n);
  }
}

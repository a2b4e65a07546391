/**
 The portable-history validator: it accepts every history the engine writes, and what it accepts is a numbered, matched
 log.
 */
module HistoryValidator {
  import opened Model
  import opened Downgrade
  import opened Evaluation
  import opened History

  /** The event's run is of its scope and definition and decided what the event says. */
  ghost predicate EventRepeatsRun(runs: seq<Run>, e: Event) {
    && e.run < |runs|
    && runs[e.run].key == e.key && runs[e.run].definition == e.definition
    && runs[e.run].decision.level == e.newLevel && runs[e.run].decision.status == e.newStatus
    && runs[e.run].decision.confidence == e.newConfidence && runs[e.run].decision.decisive == e.decisive
  }

  /** The cached row's run is of its scope and definition, saw its evidence and decided what the row says. */
  ghost predicate StateRepeatsRun(runs: seq<Run>, key: Key, p: Projection) {
    && p.run < |runs|
    && runs[p.run].key == key && runs[p.run].definition == p.definition && runs[p.run].evidence == p.evidence
    && runs[p.run].decision.level == p.level && runs[p.run].decision.status == p.status
    && runs[p.run].decision.confidence == p.confidence
    && runs[p.run].decision.confidenceFacts == p.confidenceFacts
  }

  /** How many of the first `n` events belong to the scope. */
  function CountBefore(events: seq<Event>, n: nat, key: Key): nat
    requires n <= |events|
  {
    if n == 0 then 0 else CountBefore(events, n - 1, key) + (if events[n - 1].key == key then 1 else 0)
  }

  /** The event at position `i` carries the next number of its own scope and repeats its run. */
  ghost predicate AcceptedAt(runs: seq<Run>, events: seq<Event>, i: nat)
    requires i < |events|
  {
    events[i].sequence == CountBefore(events, i, events[i].key) + 1 && EventRepeatsRun(runs, events[i])
  }

  ghost predicate EventsValid(runs: seq<Run>, events: seq<Event>, n: nat)
    requires n <= |events|
  {
    forall i :: 0 <= i < n ==> AcceptedAt(runs, events, i)
  }

  ghost predicate Counts(sequences: map<Key, nat>, events: seq<Event>, n: nat)
    requires n <= |events|
  {
    forall key :: CountBefore(events, n, key) == if key in sequences then sequences[key] else 0
  }

  lemma {:induction false} CountsAdvance(sequences: map<Key, nat>, events: seq<Event>, n: nat)
    requires n < |events| && Counts(sequences, events, n)
    ensures Counts(sequences[events[n].key := CountBefore(events, n, events[n].key) + 1], events, n + 1)
  {}

  // ---- Scope by scope -----------------------------------------------------------------------------------------

  lemma {:induction false} CountIsLength(events: seq<Event>, n: nat, key: Key)
    requires n <= |events|
    ensures CountBefore(events, n, key) == |EventsOf(events[..n], key)|
  {
    if n > 0 {
      CountIsLength(events, n - 1, key);
      assert events[..n] == events[..n - 1] + [events[n - 1]];
      EventsOfAppend(events[..n - 1], events[n - 1], key);
    }
  }

  lemma {:induction false} PositionInScope(events: seq<Event>, i: nat, n: nat)
    requires i < n <= |events|
    ensures var es := EventsOf(events[..n], events[i].key); var j := CountBefore(events, i, events[i].key);
      j < |es| && es[j] == events[i]
    decreases n
  {
    var key := events[i].key;
    assert events[..n] == events[..n - 1] + [events[n - 1]];
    EventsOfAppend(events[..n - 1], events[n - 1], key);
    if i < n - 1 { PositionInScope(events, i, n - 1); } else { CountIsLength(events, i, key); }
  }

  lemma {:induction false} ScopePositionSource(events: seq<Event>, key: Key, n: nat, j: nat) returns (i: nat)
    requires n <= |events| && j < |EventsOf(events[..n], key)|
    ensures i < n && events[i].key == key && events[i] == EventsOf(events[..n], key)[j]
    ensures CountBefore(events, i, key) == j
  {
    assert events[..n] == events[..n - 1] + [events[n - 1]];
    EventsOfAppend(events[..n - 1], events[n - 1], key);
    if j < |EventsOf(events[..n - 1], key)| {
      i := ScopePositionSource(events, key, n - 1, j);
    } else {
      i := n - 1;
      CountIsLength(events, i, key);
    }
  }

  /** One scope's own events: numbered from one without gaps, each repeating its run. */
  ghost predicate ScopeAccepted(runs: seq<Run>, es: seq<Event>) {
    forall j :: 0 <= j < |es| ==> es[j].sequence == j + 1 && EventRepeatsRun(runs, es[j])
  }

  lemma {:induction false} AcceptedScope(runs: seq<Run>, events: seq<Event>, key: Key)
    requires EventsValid(runs, events, |events|)
    ensures ScopeAccepted(runs, EventsOf(events, key))
  {
    assert events[..|events|] == events;
    forall j | 0 <= j < |EventsOf(events, key)|
      ensures EventsOf(events, key)[j].sequence == j + 1 && EventRepeatsRun(runs, EventsOf(events, key)[j])
    {
      var i := ScopePositionSource(events, key, |events|, j);
      assert AcceptedAt(runs, events, i);
    }
  }

  lemma {:induction false} AcceptedEvent(runs: seq<Run>, events: seq<Event>, i: nat)
    requires i < |events| && ScopeAccepted(runs, EventsOf(events, events[i].key))
    ensures AcceptedAt(runs, events, i)
  {
    assert events[..|events|] == events;
    PositionInScope(events, i, |events|);
  }

  ghost predicate EveryScopeAccepted(runs: seq<Run>, events: seq<Event>) {
    forall key :: ScopeAccepted(runs, EventsOf(events, key))
  }

  lemma {:induction false} AcceptedScopes(runs: seq<Run>, events: seq<Event>)
    requires EventsValid(runs, events, |events|)
    ensures EveryScopeAccepted(runs, events)
  {
    forall key ensures ScopeAccepted(runs, EventsOf(events, key)) { AcceptedScope(runs, events, key); }
  }

  lemma {:induction false} ScopesAreAccepted(runs: seq<Run>, events: seq<Event>)
    requires EveryScopeAccepted(runs, events)
    ensures EventsValid(runs, events, |events|)
  {
    forall i | 0 <= i < |events| ensures AcceptedAt(runs, events, i) {
      AcceptedEvent(runs, events, i);
    }
  }

  /**
   The validator accepts exactly when every scope's own events are numbered from one without gaps and repeat their
   runs.
   */
  lemma {:induction false} AcceptedMeansNumbered(runs: seq<Run>, events: seq<Event>)
    ensures EventsValid(runs, events, |events|) <==> EveryScopeAccepted(runs, events)
  {
    if EventsValid(runs, events, |events|) { AcceptedScopes(runs, events); }
    if EveryScopeAccepted(runs, events) { ScopesAreAccepted(runs, events); }
  }

  // ---- The validator ------------------------------------------------------------------------------------------

  /** A counter per scope, advanced over the events; the first mismatch rejects. */
  method ValidateEvents(runs: seq<Run>, events: seq<Event>) returns (accepted: bool)
    ensures accepted <==> EveryScopeAccepted(runs, events)
  {
    AcceptedMeansNumbered(runs, events);
    var sequences: map<Key, nat> := map[];
    for i := 0 to |events|
      invariant EventsValid(runs, events, i) && Counts(sequences, events, i)
    {
      var e := events[i];
      var expected := (if e.key in sequences then sequences[e.key] else 0) + 1;
      if e.run >= |runs| {
        assert !AcceptedAt(runs, events, i);
        return false;
      }
      var run := runs[e.run];
      var invalid := e.sequence != expected || run.key != e.key || run.definition != e.definition;
      invalid := invalid || e.newLevel != run.decision.level || e.newStatus != run.decision.status
        || e.newConfidence != run.decision.confidence || e.decisive != run.decision.decisive;
      if invalid {
        assert !AcceptedAt(runs, events, i);
        return false;
      }
      CountsAdvance(sequences, events, i);
      sequences := sequences[e.key := expected];
    }
    accepted := true;
  }

  method ValidateStates(runs: seq<Run>, states: map<Key, Projection>) returns (accepted: bool)
    ensures accepted <==> forall key :: key in states ==> StateRepeatsRun(runs, key, states[key])
  {
    var todo := states.Keys;
    while todo != {}
      invariant todo <= states.Keys
      invariant forall key :: key in states && key !in todo ==> StateRepeatsRun(runs, key, states[key])
      decreases todo
    {
      var key :| key in todo;
      var state := states[key];
      if state.run >= |runs| {
        return false;
      }
      var run := runs[state.run];
      if run.key != key || run.definition != state.definition || run.decision.level != state.level
        || run.decision.status != state.status || run.decision.confidence != state.confidence
        || run.evidence != state.evidence || run.decision.confidenceFacts != state.confidenceFacts
      {
        return false;
      }
      todo := todo - {key};
    }
    accepted := true;
  }

  // ---- The engine's own histories -----------------------------------------------------------------------------

  /** Whatever run of steps the engine has taken, its events and its projections pass the validator. */
  lemma {:induction false} EngineHistoriesAreAccepted(s: Store)
    requires HistoryOk(s)
    ensures EveryScopeAccepted(s.runs, s.events)
    ensures forall key :: key in s.states ==> StateRepeatsRun(s.runs, key, s.states[key])
  {
    forall key ensures ScopeAccepted(s.runs, EventsOf(s.events, key)) {
      var es := EventsOf(s.events, key);
      assert ScopeHistory(s, es) by { assert ScopeOk(s, key); }
      forall j | 0 <= j < |es| ensures es[j].sequence == j + 1 && EventRepeatsRun(s.runs, es[j]) {
        assert EventOk(s, es[..j], es[j]);
      }
    }
    forall key | key in s.states ensures StateRepeatsRun(s.runs, key, s.states[key]) {
      assert ScopeOk(s, key);
    }
  }
}

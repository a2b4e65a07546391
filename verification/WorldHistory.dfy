/** In every history of commands, clock and drainers, the events, runs and projections stay in step too. */
module WorldHistory {
  import opened Base
  import opened Model
  import opened Evaluation
  import opened History
  import opened HistoryKept
  import opened HistoryRuns
  import opened Freshness
  import opened Coherence

  /** Runs were generated by `now`, and the clock does not go back while the scopes are evaluated. */
  ghost predicate Stamped(s: Store, now: int, clock: nat -> int) {
    (forall r :: r in s.runs ==> r.generatedAt <= now) && forall k: nat :: now <= clock(k)
  }

  lemma {:induction false} EvaluatesKnown(s: Store, d: Definition, n: nat, cutoff: int, clock: nat -> int)
    requires Governs(s, d) && d.competency in s.active && n <= |Scopes(d)|
    ensures Governs(EvaluateScopes(s, d, n, cutoff, clock), d)
    ensures d.competency in EvaluateScopes(s, d, n, cutoff, clock).active
  {}

  /** Scopes evaluated before it have recorded no run of a scope. */
  lemma {:induction false} NextScopeIsStamped(s: Store, d: Definition, n: nat, now: int, clock: nat -> int)
    requires Governs(s, d) && n < |Scopes(d)| && Stamped(s, now, clock)
    ensures ClockMoves(EvaluateScopes(s, d, n, now, clock), Key(d.competency, Scopes(d)[n]), now, clock(n))
  {
    var us, keys := EvaluationChain(s, d, now, clock), ScopeKeys(d);
    EvaluationIsChain(s, d, now, clock);
    ScopeKeysDistinct(d);
    ChainLeavesOthers(us, keys, 0, n, keys[n]);
  }

  lemma {:induction false} NextScopeKeepsHistory(s: Store, d: Definition, n: nat, now: int, clock: nat -> int)
    requires Governs(s, d) && d.competency in s.active && n < |Scopes(d)| && Stamped(s, now, clock)
    requires HistoryOk(EvaluateScopes(s, d, n, now, clock))
    ensures HistoryOk(EvaluateScopes(s, d, n + 1, now, clock))
  {
    EvaluatesKnown(s, d, n, now, clock);
    NextScopeIsStamped(s, d, n, now, clock);
    EvaluationKeepsHistory(EvaluateScopes(s, d, n, now, clock), d, Scopes(d)[n], now, clock(n));
  }

  ghost predicate ChainOf(us: seq<Store>, s: Store, d: Definition, now: int, clock: nat -> int) {
    Governs(s, d) && us == EvaluationChain(s, d, now, clock)
  }

  lemma {:induction false} ChainKeepsHistory(
      us: seq<Store>, s: Store, d: Definition, now: int, clock: nat -> int, n: nat)
    requires ChainOf(us, s, d, now, clock) && d.competency in s.active && Stamped(s, now, clock)
    requires n + 1 < |us| && HistoryOk(us[n])
    ensures HistoryOk(us[n + 1])
  {
    NextScopeKeepsHistory(s, d, n, now, clock);
  }

  lemma {:induction false} ScopesKeepHistory(s: Store, d: Definition, now: int, clock: nat -> int)
    requires Governs(s, d) && d.competency in s.active && Stamped(s, now, clock) && HistoryOk(s)
    ensures HistoryOk(EvaluateScopes(s, d, |Scopes(d)|, now, clock))
  {
    var us := EvaluationChain(s, d, now, clock);
    assert us[0] == s;
    forall i: nat | i + 1 < |us| && HistoryOk(us[i]) ensures HistoryOk(us[i + 1]) {
      ChainKeepsHistory(us, s, d, now, clock, i);
    }
    StaysOk(us, |Scopes(d)|);
  }

  /** Evaluating all scopes of a competency keeps the history invariant. */
  lemma {:induction false} CompetencyKeepsHistory(s: Store, competency: Option<Id>, now: int, clock: nat -> int)
    requires HistoryOk(s) && Stamped(s, now, clock)
    ensures HistoryOk(EvaluateCompetency(s, competency, now, clock))
  {
    if competency.Some? && ActiveDefinition(s, competency.value).Some? {
      var d := ActiveDefinition(s, competency.value).value;
      ScopesKeepHistory(s, d, now, clock);
    }
  }

  /** The clock that stamps runs and the one that gives cutoffs are one clock. */
  ghost predicate MoveStamped(w: World, m: Move) { m.Finish? ==> Stamped(w.store, w.now, m.clock) }

  lemma {:induction false} MoveKeepsHistory(w: World, m: Move)
    requires HistoryOk(w.store) && Allowed(w, m) && MoveStamped(w, m)
    ensures HistoryOk(Moved(w, m).store)
  {
    match m {
      case Command(rows, items) => AppendKeepsHistory(w.store, rows);
      case ActivateDefinition(competency, definition, items) => ActivationKeepsHistory(w.store, competency, definition);
      case Restore(items) => ReseedRestores(w.store);
      case Finish(i, clock) => CompetencyKeepsHistory(w.store, ItemCompetency(w.queue[i], w.owners), w.now, clock);
      case _ =>
    }
  }

  lemma {:induction false} StepKeepsWorldHistory(trace: seq<World>, moves: seq<Move>, i: nat)
    requires IsHistoryOf(trace, moves) && OneClock(trace, moves) && i < |moves| && HistoryOk(trace[i].store)
    ensures HistoryOk(trace[i + 1].store)
  {
    assert StepAt(trace, moves, i) && MoveStamped(trace[i], moves[i]);
    MoveKeepsHistory(trace[i], moves[i]);
  }

  ghost predicate OneClock(trace: seq<World>, moves: seq<Move>)
    requires |moves| < |trace|
  {
    forall i: nat :: i < |moves| ==> MoveStamped(trace[i], moves[i])
  }

  /** In every reachable world the events, runs and projections of every scope satisfy the history invariant. */
  lemma {:induction false} EveryWorldKeepsHistory(trace: seq<World>, moves: seq<Move>, n: nat)
    requires IsHistoryOf(trace, moves) && OneClock(trace, moves) && n < |trace|
    ensures HistoryOk(trace[n].store)
  {
    if n == 0 {
      NoHistoryIsOk(trace[0].store);
    } else {
      EveryWorldKeepsHistory(trace, moves, n - 1);
      StepKeepsWorldHistory(trace, moves, n - 1);
    }
  }

  /** In calm histories every world has both: its cache follows the log, and its history is in step. */
  lemma {:induction false} CalmWorldsAreSound(trace: seq<World>, moves: seq<Move>, n: nat)
    requires IsHistoryOf(trace, moves) && OneClock(trace, moves) && n < |trace|
    requires Calm(trace, moves) && Present(trace, moves)
    ensures HistoryOk(trace[n].store) && Coherent(trace[n].store, trace[n].queue, trace[n].now)
  {
    EveryWorldKeepsHistory(trace, moves, n);
    CalmHistoriesAreCoherent(trace, moves, n);
  }
}

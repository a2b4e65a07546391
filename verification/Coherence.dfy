/**
 The whole system as atomic steps: evidence commands, activations, restores, the clock, and queue items
 claimed, finished, failed and recovered by any number of interleaved drainers.  A step keeps the cache coherent with
 the log exactly when it is clear, and steps are clear in every history in which no competency is changed between two
 evaluations of it at one instant.
 */
module Coherence {
  import opened Base
  import opened Model
  import opened Downgrade
  import opened Evaluation
  import opened HistoryRuns
  import opened Freshness

  datatype World = World(store: Store, queue: seq<Item>, owners: map<Id, Id>, now: int)

  datatype Move =
    | Tick(later: int)
    | Command(rows: Log, items: seq<Item>)
    | ActivateDefinition(competency: Id, definition: Id, items: seq<Item>)
    | Restore(items: seq<Item>)
    | Claim(item: nat)
    | Finish(item: nat, clock: nat -> int)
    | Fail(item: nat, maxAttempts: nat)
    | Recover(item: nat)

  ghost predicate Queues(items: seq<Item>, competencies: set<Id>) {
    forall c :: c in competencies ==> Requested(Capability, OfCompetency(c)) in items
  }

  ghost predicate Allowed(w: World, m: Move) {
    && Sound(w.store)
    && match m
       case Tick(later) => w.now <= later
       case Command(rows, items) =>
         && Sound(w.store.(log := Appended(w.store.log, rows)))
         && Queues(items, Affected(w.store.log, rows))
       case ActivateDefinition(competency, definition, items) =>
         definition in w.store.catalog && w.store.catalog[definition].competency == competency
           && Queues(items, {competency})
       case Restore(items) =>
         Queues(items, w.store.active.Keys) && forall e :: e in w.store.events ==> e.run < |w.store.runs|
       case Claim(i) => i < |w.queue| && w.queue[i].status == Pending
       case Finish(i, clock) => i < |w.queue| && w.queue[i].status == Running
       case Fail(i, maxAttempts) => i < |w.queue| && w.queue[i].status == Running
       case Recover(i) => i < |w.queue| && w.queue[i].status == Running
  }

  function AfterFailure(item: Item, maxAttempts: nat): ItemStatus {
    if item.attempts >= maxAttempts then PermanentFailure else Pending
  }

  ghost function Moved(w: World, m: Move): World
    requires Allowed(w, m)
  {
    match m
    case Tick(later) => w.(now := later)
    case Command(rows, items) => w.(store := w.store.(log := Appended(w.store.log, rows)), queue := w.queue + items)
    case ActivateDefinition(competency, definition, items) =>
      w.(store := w.store.(active := w.store.active[competency := definition]), queue := w.queue + items)
    case Restore(items) => w.(store := Reseed(w.store), queue := w.queue + items)
    case Claim(i) => w.(queue := w.queue[i := w.queue[i].(status := Running, attempts := w.queue[i].attempts + 1)])
    case Finish(i, clock) =>
      w.(store := EvaluateCompetency(w.store, ItemCompetency(w.queue[i], w.owners), w.now, clock),
         queue := w.queue[i := w.queue[i].(status := Completed)])
    case Fail(i, maxAttempts) =>
      var item := w.queue[i].(status := AfterFailure(w.queue[i], maxAttempts), attempts := w.queue[i].attempts);
      w.(queue := w.queue[i := item])
    case Recover(i) => w.(queue := w.queue[i := w.queue[i].(status := Pending, attempts := w.queue[i].attempts)])
  }

  ghost predicate WorldOk(w: World) {
    NotAhead(w.store, w.now) && Coherent(w.store, w.queue, w.now)
  }

  lemma {:induction false} RestoreIsCoherent(s: Store, queue: seq<Item>, items: seq<Item>, now: int)
    requires Queues(items, s.active.Keys) && forall e :: e in s.events ==> e.run < |s.runs|
    ensures Coherent(Reseed(s), queue + items, now)
  {
    forall c | c in s.active ensures Outstanding(queue + items, c) {
      assert Requested(Capability, OfCompetency(c)) in queue + items;
    }
  }

  lemma {:induction false} RestoreStaysBehind(s: Store, now: int)
    requires NotAhead(s, now) && forall e :: e in s.events ==> e.run < |s.runs|
    ensures NotAhead(Reseed(s), now)
  {
    forall k | k in Reseed(s).states ensures Reseed(s).states[k].lastEvaluated <= now {
      assert s.runs[LatestEvent(s.events, k).value.run] in s.runs;
    }
  }

  lemma {:induction false} EvaluationKeepsLog(s: Store, competency: Option<Id>, now: int, clock: nat -> int)
    requires Sound(s) && NotAhead(s, now)
    ensures EvaluateCompetency(s, competency, now, clock).log == s.log
    ensures NotAhead(EvaluateCompetency(s, competency, now, clock), now)
  {
    if competency.Some? && ActiveDefinition(s, competency.value).Some? {
      var d := ActiveDefinition(s, competency.value).value;
      ScopesStayBehind(s, d, now, clock);
    }
  }

  /** The guard of a move: only finishing an item and the clock have one. */
  ghost predicate MoveClear(w: World, m: Move)
    requires Allowed(w, m)
  {
    && (m.Finish? ==> FinishClear(w.store, w.queue, m.item, w.owners, w.now))
    && (m.Tick? ==> TickClear(w.store, w.queue, w.now, m.later))
  }

  /** The recorded cutoffs stay behind the clock whatever the move. */
  lemma {:induction false} MoveStaysBehind(w: World, m: Move)
    requires NotAhead(w.store, w.now) && Allowed(w, m)
    ensures NotAhead(Moved(w, m).store, Moved(w, m).now)
  {
    match m {
      case Restore(items) => RestoreStaysBehind(w.store, w.now);
      case Finish(i, clock) => EvaluationKeepsLog(w.store, ItemCompetency(w.queue[i], w.owners), w.now, clock);
      case _ =>
    }
  }

  lemma {:induction false} RequeueingKeepsCoherence(w: World, m: Move)
    requires WorldOk(w) && Allowed(w, m) && (m.Claim? || m.Fail? || m.Recover?)
    ensures Coherent(Moved(w, m).store, Moved(w, m).queue, Moved(w, m).now)
  {
    match m {
      case Claim(i) => RequeueKeepsCoherence(w.store, w.queue, i, Running, w.queue[i].attempts + 1, w.now);
      case Fail(i, maxAttempts) =>
        RequeueKeepsCoherence(w.store, w.queue, i, AfterFailure(w.queue[i], maxAttempts), w.queue[i].attempts, w.now);
      case Recover(i) => RequeueKeepsCoherence(w.store, w.queue, i, Pending, w.queue[i].attempts, w.now);
    }
  }

  /** A move from a coherent world leads to a coherent world exactly when it is clear. */
  lemma {:induction false} MoveKeepsCoherenceIff(w: World, m: Move)
    requires WorldOk(w) && Allowed(w, m)
    ensures WorldOk(Moved(w, m)) <==> MoveClear(w, m)
  {
    MoveStaysBehind(w, m);
    match m {
      case Tick(later) => TimeKeepsCoherenceIff(w.store, w.queue, w.now, later);
      case Command(rows, items) => AppendKeepsCoherence(w.store, rows, w.queue, w.queue + items, w.now);
      case ActivateDefinition(competency, definition, items) =>
        ActivationKeepsCoherence(w.store, w.queue, w.queue + items, competency, definition, w.now);
      case Restore(items) => RestoreIsCoherent(w.store, w.queue, items, w.now);
      case Finish(i, clock) => FinishKeepsCoherenceIff(w.store, w.queue, i, w.owners, w.now, clock);
      case _ => RequeueingKeepsCoherence(w, m);
    }
  }

  /** A run of allowed moves from a world with no active definitions and an empty log. */
  ghost predicate IsHistoryOf(trace: seq<World>, moves: seq<Move>) {
    && |trace| == |moves| + 1
    && Initial(trace[0].store) && trace[0].store.active == map[] && trace[0].store.log == Log([], [], [], [], [])
    && forall i: nat :: i < |moves| ==> StepAt(trace, moves, i)
  }

  ghost predicate StepAt(trace: seq<World>, moves: seq<Move>, i: nat)
    requires i < |moves| < |trace|
  {
    Allowed(trace[i], moves[i]) && trace[i + 1] == Moved(trace[i], moves[i])
  }

  ghost predicate ClearAt(trace: seq<World>, moves: seq<Move>, i: nat)
    requires i < |moves| < |trace|
  {
    StepAt(trace, moves, i) ==> MoveClear(trace[i], moves[i])
  }

  lemma {:induction false} ClearStepKeepsOk(trace: seq<World>, moves: seq<Move>, i: nat)
    requires i < |moves| < |trace| && StepAt(trace, moves, i) && ClearAt(trace, moves, i) && WorldOk(trace[i])
    ensures WorldOk(trace[i + 1])
  {
    MoveKeepsCoherenceIff(trace[i], moves[i]);
  }

  /**
   In every history of clear moves each competency with an active definition has, in every scope, the evidence set that
   is active now, or a capability item that is pending, running or permanently failed.
   */
  lemma {:induction false} EveryStateIsCoherent(trace: seq<World>, moves: seq<Move>, n: nat)
    requires IsHistoryOf(trace, moves) && n < |trace| && forall i: nat :: i < n ==> ClearAt(trace, moves, i)
    ensures Coherent(trace[n].store, trace[n].queue, trace[n].now)
    ensures WorldOk(trace[n])
  {
    if n > 0 {
      EveryStateIsCoherent(trace, moves, n - 1);
      assert StepAt(trace, moves, n - 1) && ClearAt(trace, moves, n - 1);
      ClearStepKeepsOk(trace, moves, n - 1);
    }
  }

  // ---- Histories without changes between evaluations at one instant -----------------------------

  predicate Finishes(w: World, m: Move, c: Id) {
    m.Finish? && m.item < |w.queue| && ItemCompetency(w.queue[m.item], w.owners) == Some(c)
  }

  /** The move can change what is active or cached for the competency, other than by evaluating it. */
  predicate Disturbs(w: World, m: Move, c: Id) {
    match m
    case Command(rows, items) => c in Affected(w.store.log, rows)
    case ActivateDefinition(competency, definition, items) => competency == c
    case Restore(items) => true
    case _ => false
  }

  /** Moves `a` and `b` evaluate one competency at one instant, and move `m` between them changes it. */
  predicate ChangedBetween(trace: seq<World>, moves: seq<Move>, a: nat, m: nat, b: nat, c: Id)
    requires |moves| < |trace| && a < m < b < |moves|
  {
    && Finishes(trace[a], moves[a], c) && Finishes(trace[b], moves[b], c) && trace[a].now == trace[b].now
    && Disturbs(trace[m], moves[m], c)
  }

  ghost predicate Calm(trace: seq<World>, moves: seq<Move>)
    requires |moves| < |trace|
  {
    forall a: nat, m: nat, b: nat, c: Id :: a < m < b < |moves| ==> !ChangedBetween(trace, moves, a, m, b, c)
  }

  /** No command dates evidence, or records a row, in the future. */
  ghost predicate Present(trace: seq<World>, moves: seq<Move>)
    requires |moves| < |trace|
  {
    forall i: nat :: i < |moves| && moves[i].Command? ==> NoFuture(moves[i].rows, trace[i].now)
  }

  lemma {:induction false} MoveStaysPresent(w: World, m: Move)
    requires NoFuture(w.store.log, w.now) && NotAhead(w.store, w.now) && Allowed(w, m)
    requires m.Command? ==> NoFuture(m.rows, w.now)
    ensures NoFuture(Moved(w, m).store.log, Moved(w, m).now)
  {
    if m.Finish? { EvaluationKeepsLog(w.store, ItemCompetency(w.queue[m.item], w.owners), w.now, m.clock); }
  }

  lemma {:induction false} LogStaysPresent(trace: seq<World>, moves: seq<Move>, n: nat)
    requires IsHistoryOf(trace, moves) && Present(trace, moves) && n < |trace|
    ensures NoFuture(trace[n].store.log, trace[n].now)
  {
    if n > 0 {
      LogStaysPresent(trace, moves, n - 1);
      StaysBehind(trace, moves, n - 1);
      assert StepAt(trace, moves, n - 1);
      MoveStaysPresent(trace[n - 1], moves[n - 1]);
    }
  }

  lemma {:induction false} StaysBehind(trace: seq<World>, moves: seq<Move>, n: nat)
    requires IsHistoryOf(trace, moves) && n < |trace|
    ensures NotAhead(trace[n].store, trace[n].now)
  {
    if n > 0 {
      StaysBehind(trace, moves, n - 1);
      assert StepAt(trace, moves, n - 1);
      MoveStaysBehind(trace[n - 1], moves[n - 1]);
    }
  }

  lemma {:induction false} StepTakesTime(trace: seq<World>, moves: seq<Move>, i: nat)
    requires IsHistoryOf(trace, moves) && i < |moves|
    ensures trace[i].now <= trace[i + 1].now
  {
    assert StepAt(trace, moves, i);
  }

  lemma {:induction false} ClockNeverGoesBack(trace: seq<World>, moves: seq<Move>, a: nat, b: nat)
    requires IsHistoryOf(trace, moves) && a <= b < |trace|
    ensures trace[a].now <= trace[b].now
    decreases b
  {
    if a < b {
      ClockNeverGoesBack(trace, moves, a, b - 1);
      StepTakesTime(trace, moves, b - 1);
    }
  }

  lemma {:induction false} MoveRecordsItsOwn(w: World, m: Move, t: World, r: Run)
    requires Allowed(w, m) && t == Moved(w, m) && r in t.store.runs && r !in w.store.runs
    ensures Finishes(w, m, r.key.competency) && r.cutoff == w.now && r.key.competency in w.store.active
  {
    var competency := ItemCompetency(w.queue[m.item], w.owners);
    EvaluationRecordsItsOwn(w.store, ActiveDefinition(w.store, competency.value).value, w.now, m.clock);
  }

  /** Whoever recorded a run evaluated its competency at its cutoff, while the competency was active. */
  lemma {:induction false} RunHasOrigin(trace: seq<World>, moves: seq<Move>, n: nat, r: Run) returns (a: nat)
    requires IsHistoryOf(trace, moves) && n < |trace| && r in trace[n].store.runs
    ensures a < n && Finishes(trace[a], moves[a], r.key.competency) && trace[a].now == r.cutoff
    ensures r.key.competency in trace[a].store.active
  {
    if r in trace[n - 1].store.runs {
      a := RunHasOrigin(trace, moves, n - 1, r);
    } else {
      a := n - 1;
      assert StepAt(trace, moves, a);
      MoveRecordsItsOwn(trace[a], moves[a], trace[a + 1], r);
    }
  }

  ghost predicate FreshAt(w: World, c: Id) { c in w.store.active && Fresh(w.store, c, w.now) }

  lemma {:induction false} ActivationElsewhere(s: Store, competency: Id, definition: Id, now: int, c: Id)
    requires c in s.active && Fresh(s, c, now) && competency != c
    ensures Fresh(s.(active := s.active[competency := definition]), c, now)
  {
    assert ActiveDefinition(s.(active := s.active[competency := definition]), c) == ActiveDefinition(s, c);
  }

  lemma {:induction false} EvaluationStaysFresh(s: Store, competency: Option<Id>, now: int, clock: nat -> int, c: Id)
    requires Sound(s) && NotAhead(s, now) && c in s.active && Fresh(s, c, now)
    ensures EvaluateCompetency(s, competency, now, clock).active == s.active
    ensures Fresh(EvaluateCompetency(s, competency, now, clock), c, now)
  {
    if competency == Some(c) {
      FreshIsClear(s, c, now);
      EvaluatedIsFreshIff(s, c, now, clock);
    } else {
      OthersStayFresh(s, competency, now, clock, c);
    }
  }

  lemma {:induction false} RowsElsewhereKeepFresh(s: Store, rows: Log, now: int, c: Id)
    requires Sound(s) && Fresh(s, c, now) && c in s.active && c !in Affected(s.log, rows)
    ensures c in s.(log := Appended(s.log, rows)).active && Fresh(s.(log := Appended(s.log, rows)), c, now)
  {
    FreshnessCarries(s, rows, c, now);
  }

  lemma {:induction false} FinishedStaysFresh(w: World, i: nat, clock: nat -> int, c: Id)
    requires Allowed(w, Finish(i, clock)) && NotAhead(w.store, w.now) && c in w.store.active && Fresh(w.store, c, w.now)
    ensures var t := Moved(w, Finish(i, clock)).store; c in t.active && Fresh(t, c, w.now)
  {
    EvaluationStaysFresh(w.store, ItemCompetency(w.queue[i], w.owners), w.now, clock, c);
  }

  /** What is fresh stays fresh at the same instant, unless a move changes it. */
  lemma {:induction false} UndisturbedStaysFresh(w: World, m: Move, c: Id)
    requires Allowed(w, m) && NotAhead(w.store, w.now) && !Disturbs(w, m, c) && Moved(w, m).now == w.now
    requires c in w.store.active && Fresh(w.store, c, w.now)
    ensures c in Moved(w, m).store.active && Fresh(Moved(w, m).store, c, w.now)
  {
    match m {
      case Command(rows, items) => RowsElsewhereKeepFresh(w.store, rows, w.now, c);
      case ActivateDefinition(competency, definition, items) =>
        ActivationElsewhere(w.store, competency, definition, w.now, c);
      case Finish(i, clock) => FinishedStaysFresh(w, i, clock, c);
      case _ =>
    }
  }

  lemma {:induction false} ClearFinishFreshens(w: World, m: Move, t: World, c: Id)
    requires Allowed(w, m) && t == Moved(w, m) && NotAhead(w.store, w.now) && Finishes(w, m, c)
    requires c in w.store.active && Clear(w.store, c, w.now)
    ensures FreshAt(t, c)
  {
    EvaluatedIsFreshIff(w.store, c, w.now, m.clock);
  }

  lemma {:induction false} StepBetween(trace: seq<World>, moves: seq<Move>, a: nat, m: nat, b: nat)
    requires IsHistoryOf(trace, moves) && a <= m < b < |moves| && trace[a].now == trace[b].now
    ensures StepAt(trace, moves, m) && NotAhead(trace[m].store, trace[m].now) && trace[m + 1].now == trace[m].now
  {
    StaysBehind(trace, moves, m);
    ClockNeverGoesBack(trace, moves, a, m);
    ClockNeverGoesBack(trace, moves, m, m + 1);
    ClockNeverGoesBack(trace, moves, m + 1, b);
  }

  lemma {:induction false} NothingChangesBetween(trace: seq<World>, moves: seq<Move>, a: nat, m: nat, b: nat, c: Id)
    requires |moves| < |trace| && Calm(trace, moves) && a < m < b < |moves|
    requires Finishes(trace[a], moves[a], c) && Finishes(trace[b], moves[b], c) && trace[a].now == trace[b].now
    ensures !Disturbs(trace[m], moves[m], c)
  {
    assert !ChangedBetween(trace, moves, a, m, b, c);
  }

  /** Moves `a` and `b` evaluate the competency at one instant, the first of them when it is clear. */
  ghost predicate ClearPair(trace: seq<World>, moves: seq<Move>, a: nat, b: nat, c: Id)
    requires |moves| < |trace| && a < b < |moves|
  {
    && Finishes(trace[a], moves[a], c) && Finishes(trace[b], moves[b], c) && trace[a].now == trace[b].now
    && c in trace[a].store.active && Clear(trace[a].store, c, trace[a].now)
  }

  lemma {:induction false} FreshFrom(trace: seq<World>, moves: seq<Move>, a: nat, b: nat, c: Id)
    requires IsHistoryOf(trace, moves) && a < b < |moves| && ClearPair(trace, moves, a, b, c)
    ensures FreshAt(trace[a + 1], c)
  {
    StepBetween(trace, moves, a, a, b);
    ClearFinishFreshens(trace[a], moves[a], trace[a + 1], c);
  }

  lemma {:induction false} FreshStep(trace: seq<World>, moves: seq<Move>, a: nat, m: nat, b: nat, c: Id)
    requires IsHistoryOf(trace, moves) && Calm(trace, moves) && a < m < b < |moves| && ClearPair(trace, moves, a, b, c)
    ensures FreshAt(trace[m], c) ==> FreshAt(trace[m + 1], c)
  {
    if FreshAt(trace[m], c) {
      StepBetween(trace, moves, a, m, b);
      NothingChangesBetween(trace, moves, a, m, b, c);
      UndisturbedStaysFresh(trace[m], moves[m], c);
    }
  }

  lemma {:induction false} StaysFreshBetween(trace: seq<World>, moves: seq<Move>, a: nat, n: nat, b: nat, c: Id)
    requires IsHistoryOf(trace, moves) && Calm(trace, moves) && a < n <= b < |moves| && ClearPair(trace, moves, a, b, c)
    ensures FreshAt(trace[n], c)
    decreases n
  {
    if n == a + 1 {
      FreshFrom(trace, moves, a, b, c);
    } else {
      StaysFreshBetween(trace, moves, a, n - 1, b, c);
      FreshStep(trace, moves, a, n - 1, b, c);
    }
  }

  /** In a calm history every evaluation finds its competency clear. */
  lemma {:induction false} CalmFinishesAreClear(trace: seq<World>, moves: seq<Move>, b: nat, c: Id)
    requires IsHistoryOf(trace, moves) && Calm(trace, moves) && b < |moves| && Finishes(trace[b], moves[b], c)
    ensures Clear(trace[b].store, c, trace[b].now)
    decreases b
  {
    var now := trace[b].now;
    if r :| r in trace[b].store.runs && r.key.competency == c && r.cutoff == now {
      var a := RunHasOrigin(trace, moves, b, r);
      CalmFinishesAreClear(trace, moves, a, c);
      StaysFreshBetween(trace, moves, a, b, b, c);
      FreshIsClear(trace[b].store, c, now);
    } else {
      UnusedIsClear(trace[b].store, c, now);
    }
  }

  /**
   If no command, activation or restore changes a competency between two evaluations of it in one millisecond, and none
   dates anything in the future, every state of the history is coherent: any number of items of one competency may be
   finished in that millisecond.
   */
  lemma {:induction false} CalmHistoriesAreCoherent(trace: seq<World>, moves: seq<Move>, n: nat)
    requires IsHistoryOf(trace, moves) && Calm(trace, moves) && Present(trace, moves) && n < |trace|
    ensures Coherent(trace[n].store, trace[n].queue, trace[n].now)
  {
    forall i: nat | i < n ensures ClearAt(trace, moves, i) {
      var w, m := trace[i], moves[i];
      assert StepAt(trace, moves, i);
      if m.Finish? && ItemCompetency(w.queue[m.item], w.owners).Some? {
        CalmFinishesAreClear(trace, moves, i, ItemCompetency(w.queue[m.item], w.owners).value);
      }
      if m.Tick? {
        LogStaysPresent(trace, moves, i);
        PresentLogIsClear(w.store, w.queue, w.now, m.later);
      }
    }
    EveryStateIsCoherent(trace, moves, n);
  }
}

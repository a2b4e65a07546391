/**
 Several drainers working one queue of invalidations, interleaved at transaction boundaries: each takes a list of
 the pending items, then claims, finishes or fails them one by one.  Drainers may crash, and a recovery may return
 running items to the queue.
 */
module DrainProtocol {
  import opened Freshness
  import CapabilityStore
  import Coherence

  /** One drain call: its list, its position, and whether it holds the item there. */
  datatype Drainer = Drainer(ids: seq<nat>, next: nat, holding: bool)

  datatype System = System(queue: seq<Item>, drainers: seq<Drainer>)

  datatype Step =
    | Enqueue(kind: Kind, subject: Subject)
    | Begin(d: nat, ids: seq<nat>)
    | Claim(d: nat)
    | Finish(d: nat)
    | Fail(d: nat)
    | Crash(d: nat)
    | Recover
    | DrainAtomically

  /** The pending items that drains handle, each once, in any order. */
  ghost predicate IsWorklist(queue: seq<Item>, ids: seq<nat>) {
    && (forall a, b :: 0 <= a < b < |ids| ==> ids[a] != ids[b])
    && (forall a :: 0 <= a < |ids| ==> ids[a] < |queue| && queue[ids[a]].status == Pending && Drainable(queue[ids[a]]))
    && forall i: nat :: i < |queue| && queue[i].status == Pending && Drainable(queue[i]) ==> i in ids
  }

  predicate AtItem(w: System, d: nat) {
    d < |w.drainers| && w.drainers[d].next < |w.drainers[d].ids| && w.drainers[d].ids[w.drainers[d].next] < |w.queue|
  }

  predicate Holding(w: System, d: nat) { AtItem(w, d) && w.drainers[d].holding }

  function ItemOf(w: System, d: nat): (i: nat)
    requires AtItem(w, d)
    ensures i < |w.queue|
  {
    w.drainers[d].ids[w.drainers[d].next]
  }

  ghost predicate Enabled(w: System, step: Step) {
    match step
    case Enqueue(_, _) => true
    case Begin(d, ids) => d < |w.drainers| && !w.drainers[d].holding && IsWorklist(w.queue, ids)
    case Claim(d) => AtItem(w, d) && !w.drainers[d].holding
    case Finish(d) => Holding(w, d)
    case Fail(d) => Holding(w, d)
    case Crash(d) => d < |w.drainers|
    case Recover => true
    case DrainAtomically => true
  }

  /** The drainer moves past its item and lets it go. */
  function Advanced(r: Drainer): Drainer { r.(next := r.next + 1, holding := false) }

  /** Claiming takes effect only on an item that is still pending. */
  predicate Succeeds(w: System, d: nat) { AtItem(w, d) && w.queue[ItemOf(w, d)].status == Pending }

  function Claimed(item: Item): Item { item.(status := Running, attempts := item.attempts + 1) }

  function AtomicallyDrained(item: Item): Item {
    if item.status == Pending && Drainable(item) then item.(status := Completed, attempts := item.attempts + 1)
      else item
  }

  function Next(w: System, step: Step, maxAttempts: nat): System
    requires Enabled(w, step)
  {
    match step
    case Enqueue(kind, subject) => w.(queue := w.queue + [Requested(kind, subject)])
    case Begin(d, ids) => w.(drainers := w.drainers[d := Drainer(ids, 0, false)])
    case Claim(d) =>
      var i := ItemOf(w, d);
      if Succeeds(w, d)
      then System(w.queue[i := Claimed(w.queue[i])], w.drainers[d := w.drainers[d].(holding := true)])
      else w.(drainers := w.drainers[d := Advanced(w.drainers[d])])
    case Finish(d) =>
      var i := ItemOf(w, d);
      System(w.queue[i := w.queue[i].(status := Completed)], w.drainers[d := Advanced(w.drainers[d])])
    case Fail(d) =>
      var i := ItemOf(w, d);
      System(w.queue[i := w.queue[i].(status := Coherence.AfterFailure(w.queue[i], maxAttempts))],
        w.drainers[d := Advanced(w.drainers[d])])
    case Crash(d) => w.(drainers := w.drainers[d := Drainer([], 0, false)])
    case Recover =>
      w.(queue := seq(|w.queue|, i requires 0 <= i < |w.queue| => CapabilityStore.RecoveredItem(w.queue[i])))
    case DrainAtomically => w.(queue := seq(|w.queue|, i requires 0 <= i < |w.queue| => AtomicallyDrained(w.queue[i])))
  }

  // ---- One holder at a time ---------------------------------------------------------------------

  ghost predicate DrainerOk(queue: seq<Item>, r: Drainer) {
    && r.next <= |r.ids| && (r.holding ==> r.next < |r.ids|)
    && (forall a :: 0 <= a < |r.ids| ==> r.ids[a] < |queue| && Drainable(queue[r.ids[a]]))
    && forall a, b :: 0 <= a < b < |r.ids| ==> r.ids[a] != r.ids[b]
  }

  ghost predicate HoldsRunning(w: System, d: nat) {
    Holding(w, d) ==> w.queue[ItemOf(w, d)].status == Running
  }

  ghost predicate NotShared(w: System, d: nat, e: nat) {
    Holding(w, d) && Holding(w, e) && d != e ==> ItemOf(w, d) != ItemOf(w, e)
  }

  /** Held items are running, and no item has two holders. */
  ghost predicate Exclusive(w: System) {
    && (forall d: nat :: d < |w.drainers| ==> DrainerOk(w.queue, w.drainers[d]))
    && (forall d: nat :: d < |w.drainers| ==> HoldsRunning(w, d))
    && forall d: nat, e: nat :: d < |w.drainers| && e < |w.drainers| ==> NotShared(w, d, e)
  }

  ghost predicate NobodyHolds(w: System) {
    forall d: nat :: d < |w.drainers| ==> !w.drainers[d].holding
  }

  lemma {:induction false} StepKeepsExclusive(w: System, step: Step, maxAttempts: nat)
    requires Exclusive(w) && Enabled(w, step) && (step == Recover ==> NobodyHolds(w))
    ensures Exclusive(Next(w, step, maxAttempts))
  {
    var u := Next(w, step, maxAttempts);
    forall d: nat | d < |u.drainers| ensures DrainerOk(u.queue, u.drainers[d]) {
      DrainerStaysOk(w, step, maxAttempts, d);
    }
    forall d: nat | d < |u.drainers| ensures HoldsRunning(u, d) { HolderStaysRunning(w, step, maxAttempts, d); }
    forall d: nat, e: nat | d < |u.drainers| && e < |u.drainers| ensures NotShared(u, d, e) {
      StaysUnshared(w, step, maxAttempts, d, e);
    }
  }

  lemma {:induction false} DrainerStaysOk(w: System, step: Step, maxAttempts: nat, d: nat)
    requires Exclusive(w) && Enabled(w, step) && d < |w.drainers|
    ensures DrainerOk(Next(w, step, maxAttempts).queue, Next(w, step, maxAttempts).drainers[d])
  {
    assert DrainerOk(w.queue, w.drainers[d]);
  }

  lemma {:induction false} HolderStaysRunning(w: System, step: Step, maxAttempts: nat, d: nat)
    requires Exclusive(w) && Enabled(w, step) && d < |w.drainers| && (step == Recover ==> NobodyHolds(w))
    ensures HoldsRunning(Next(w, step, maxAttempts), d)
  {
    assert HoldsRunning(w, d) && DrainerOk(w.queue, w.drainers[d]);
    if (step.Claim? || step.Finish? || step.Fail?) && step.d != d {
      assert NotShared(w, d, step.d) && HoldsRunning(w, step.d);
    }
  }

  lemma {:induction false} StaysUnshared(w: System, step: Step, maxAttempts: nat, d: nat, e: nat)
    requires Exclusive(w) && Enabled(w, step) && d < |w.drainers| && e < |w.drainers|
    ensures NotShared(Next(w, step, maxAttempts), d, e)
  {
    assert NotShared(w, d, e) && HoldsRunning(w, d) && HoldsRunning(w, e);
    assert DrainerOk(w.queue, w.drainers[d]) && DrainerOk(w.queue, w.drainers[e]);
  }

  /** Recovery keeps held items running exactly when nobody holds one. */
  lemma {:induction false} RecoveryIsSafeIffNobodyHolds(w: System, maxAttempts: nat)
    requires Exclusive(w)
    ensures Exclusive(Next(w, Recover, maxAttempts)) <==> NobodyHolds(w)
  {
    if NobodyHolds(w) {
      StepKeepsExclusive(w, Recover, maxAttempts);
    } else {
      var d: nat :| d < |w.drainers| && w.drainers[d].holding;
      assert DrainerOk(w.queue, w.drainers[d]) && HoldsRunning(w, d);
      var u := Next(w, Recover, maxAttempts);
      assert Holding(u, d) && u.queue[ItemOf(u, d)].status == Pending;
      assert !HoldsRunning(u, d);
    }
  }

  // ---- Runs -------------------------------------------------------------------------------------

  /** Any interleaving of steps from an empty queue and idle drainers. */
  ghost predicate IsRun(run: seq<System>, steps: seq<Step>, maxAttempts: nat) {
    && |run| == |steps| + 1 && run[0].queue == []
    && (forall d: nat :: d < |run[0].drainers| ==> run[0].drainers[d] == Drainer([], 0, false))
    && forall n: nat :: n < |steps| ==> Enabled(run[n], steps[n]) && run[n + 1] == Next(run[n], steps[n], maxAttempts)
  }

  /** Recovery happens only while no live drainer holds an item. */
  ghost predicate RecoversIdle(run: seq<System>, steps: seq<Step>) {
    forall n: nat :: n < |steps| && n < |run| && steps[n] == Recover ==> NobodyHolds(run[n])
  }

  lemma {:induction false} RunsAreExclusive(run: seq<System>, steps: seq<Step>, maxAttempts: nat, n: nat)
    requires IsRun(run, steps, maxAttempts) && RecoversIdle(run, steps) && n < |run|
    ensures Exclusive(run[n])
  {
    if n > 0 {
      RunsAreExclusive(run, steps, maxAttempts, n - 1);
      assert run[n - 1 + 1] == Next(run[n - 1], steps[n - 1], maxAttempts);
      StepKeepsExclusive(run[n - 1], steps[n - 1], maxAttempts);
    }
  }

  /** No item is held by two drainers at once. */
  lemma {:induction false} NoItemHasTwoHolders(
      run: seq<System>, steps: seq<Step>, maxAttempts: nat, n: nat, d: nat, e: nat)
    requires IsRun(run, steps, maxAttempts) && RecoversIdle(run, steps) && n < |run|
    requires d != e && Holding(run[n], d) && Holding(run[n], e)
    ensures ItemOf(run[n], d) != ItemOf(run[n], e)
  {
    RunsAreExclusive(run, steps, maxAttempts, n);
    assert NotShared(run[n], d, e);
  }

  predicate Final(status: ItemStatus) { status == Completed || status == PermanentFailure }

  lemma {:induction false} StepKeepsFinal(w: System, step: Step, maxAttempts: nat, i: nat)
    requires Exclusive(w) && Enabled(w, step) && i < |w.queue| && Final(w.queue[i].status)
    ensures i < |Next(w, step, maxAttempts).queue| && Next(w, step, maxAttempts).queue[i] == w.queue[i]
  {
    if step.Finish? || step.Fail? { assert HoldsRunning(w, step.d); }
  }

  /** A completed or permanently failed item never changes again. */
  lemma {:induction false} FinalIsAbsorbing(
      run: seq<System>, steps: seq<Step>, maxAttempts: nat, n: nat, m: nat, i: nat)
    requires IsRun(run, steps, maxAttempts) && RecoversIdle(run, steps) && n <= m < |run|
    requires i < |run[n].queue| && Final(run[n].queue[i].status)
    ensures i < |run[m].queue| && run[m].queue[i] == run[n].queue[i]
    decreases m
  {
    if n < m {
      FinalIsAbsorbing(run, steps, maxAttempts, n, m - 1, i);
      RunsAreExclusive(run, steps, maxAttempts, m - 1);
      assert run[m - 1 + 1] == Next(run[m - 1], steps[m - 1], maxAttempts);
      StepKeepsFinal(run[m - 1], steps[m - 1], maxAttempts, i);
    }
  }

  /**
   A recovery while a drainer still holds its item lets a second drainer take the item, and lets a completed item
   become pending again.
   */
  lemma {:induction false} RecoveryUnderAHolder(w: System, d: nat, e: nat, ids: seq<nat>, maxAttempts: nat)
    requires Exclusive(w) && d != e && Holding(w, d) && e < |w.drainers| && !w.drainers[e].holding
    requires IsWorklist(Next(w, Recover, maxAttempts).queue, ids) && ids != [] && ids[0] == ItemOf(w, d)
    requires w.queue[ItemOf(w, d)].attempts + 1 < maxAttempts
    ensures var recovered := Next(w, Recover, maxAttempts);
      && Enabled(recovered, Begin(e, ids)) && var begun := Next(recovered, Begin(e, ids), maxAttempts);
      && Enabled(begun, Claim(e)) && var both := Next(begun, Claim(e), maxAttempts);
      && Holding(both, d) && Holding(both, e) && ItemOf(both, d) == ItemOf(both, e)
      && var finished := Next(both, Finish(d), maxAttempts);
      && finished.queue[ids[0]].status == Completed && Enabled(finished, Fail(e))
      && Next(finished, Fail(e), maxAttempts).queue[ids[0]].status == Pending
  {
    assert HoldsRunning(w, d) && DrainerOk(w.queue, w.drainers[d]);
    var recovered := Next(w, Recover, maxAttempts);
    assert recovered.queue[ids[0]].attempts == w.queue[ids[0]].attempts;
  }

  // ---- One attempt per call ---------------------------------------------------------------------

  ghost predicate ListsDistinct(w: System) {
    forall d: nat :: d < |w.drainers| ==> forall a, b :: 0 <= a < b < |w.drainers[d].ids| ==>
      w.drainers[d].ids[a] != w.drainers[d].ids[b]
  }

  lemma {:induction false} ListsStayDistinct(run: seq<System>, steps: seq<Step>, maxAttempts: nat, n: nat)
    requires IsRun(run, steps, maxAttempts) && n < |run|
    ensures ListsDistinct(run[n])
  {
    if n > 0 {
      ListsStayDistinct(run, steps, maxAttempts, n - 1);
      assert run[n - 1 + 1] == Next(run[n - 1], steps[n - 1], maxAttempts);
    }
  }

  /** The drain call the drainer is in at `n` is still the one it was in at `from`. */
  ghost predicate SameCall(steps: seq<Step>, from: nat, n: nat, d: nat) {
    forall k: nat :: from <= k < n && k < |steps| ==> !(steps[k].Begin? && steps[k].d == d) && steps[k] != Crash(d)
  }

  lemma {:induction false} PositionMovesOn(
      run: seq<System>, steps: seq<Step>, maxAttempts: nat, from: nat, n: nat, d: nat)
    requires IsRun(run, steps, maxAttempts) && from < n < |run| && SameCall(steps, from, n, d)
    requires steps[from] == Claim(d) && Succeeds(run[from], d)
    ensures d < |run[n].drainers| && run[n].drainers[d].ids == run[from].drainers[d].ids
    ensures run[n].drainers[d].next > run[from].drainers[d].next
      || (run[n].drainers[d].next == run[from].drainers[d].next && run[n].drainers[d].holding)
    decreases n
  {
    assert run[n - 1 + 1] == Next(run[n - 1], steps[n - 1], maxAttempts);
    if n - 1 > from {
      PositionMovesOn(run, steps, maxAttempts, from, n - 1, d);
    }
  }

  /** One drain call claims an item at most once, even across recoveries. */
  lemma {:induction false} OneAttemptPerCall(
      run: seq<System>, steps: seq<Step>, maxAttempts: nat, n: nat, m: nat, d: nat)
    requires IsRun(run, steps, maxAttempts) && n < m < |steps| && SameCall(steps, n, m, d)
    requires steps[n] == Claim(d) && steps[m] == Claim(d) && Succeeds(run[n], d) && Succeeds(run[m], d)
    ensures ItemOf(run[n], d) != ItemOf(run[m], d)
  {
    PositionMovesOn(run, steps, maxAttempts, n, m, d);
    ListsStayDistinct(run, steps, maxAttempts, m);
    assert Enabled(run[m], steps[m]);
  }

  // ---- The retry budget -------------------------------------------------------------------------

  ghost predicate ItemInBudget(item: Item, maxAttempts: nat) {
    item.attempts <= maxAttempts && (item.status == Pending ==> item.attempts < maxAttempts)
  }

  /** No item has used more than its attempts, and a pending one has an attempt left. */
  ghost predicate InBudget(w: System, maxAttempts: nat) {
    forall i: nat :: i < |w.queue| ==> ItemInBudget(w.queue[i], maxAttempts)
  }

  lemma {:induction false} StepKeepsBudget(w: System, step: Step, maxAttempts: nat)
    requires Enabled(w, step) && InBudget(w, maxAttempts) && step != Recover && maxAttempts > 0
    ensures InBudget(Next(w, step, maxAttempts), maxAttempts)
  {
    var u := Next(w, step, maxAttempts);
    forall i: nat | i < |u.queue| ensures ItemInBudget(u.queue[i], maxAttempts) {
      assert i < |w.queue| ==> ItemInBudget(w.queue[i], maxAttempts);
    }
  }

  /** Without recovery every pending item has fewer than the allowed attempts. */
  lemma {:induction false} PendingItemsHaveAttemptsLeft(run: seq<System>, steps: seq<Step>, maxAttempts: nat, n: nat)
    requires IsRun(run, steps, maxAttempts) && maxAttempts > 0 && n < |run|
    requires forall k: nat :: k < n ==> steps[k] != Recover
    ensures InBudget(run[n], maxAttempts)
  {
    if n > 0 {
      PendingItemsHaveAttemptsLeft(run, steps, maxAttempts, n - 1);
      assert run[n - 1 + 1] == Next(run[n - 1], steps[n - 1], maxAttempts);
      StepKeepsBudget(run[n - 1], steps[n - 1], maxAttempts);
    }
  }

  /** A recovery keeps the budget exactly when no running item is on its last attempt. */
  lemma {:induction false} RecoveryKeepsBudgetIff(w: System, maxAttempts: nat)
    requires InBudget(w, maxAttempts)
    ensures InBudget(Next(w, Recover, maxAttempts), maxAttempts)
      <==> forall i: nat :: i < |w.queue| && w.queue[i].status == Running && Drainable(w.queue[i]) ==>
        w.queue[i].attempts < maxAttempts
  {
    var u := Next(w, Recover, maxAttempts);
    forall i: nat | i < |w.queue|
      ensures ItemInBudget(u.queue[i], maxAttempts)
        <==> (w.queue[i].status == Running && Drainable(w.queue[i]) ==> w.queue[i].attempts < maxAttempts)
    {
      assert ItemInBudget(w.queue[i], maxAttempts);
    }
  }

  /** How often the item was claimed in the first `n` steps. */
  ghost function Claims(run: seq<System>, steps: seq<Step>, maxAttempts: nat, n: nat, i: nat): nat
    requires IsRun(run, steps, maxAttempts) && n < |run|
  {
    if n == 0 then 0
    else
      Claims(run, steps, maxAttempts, n - 1, i)
      + (if Takes(run[n - 1], steps[n - 1], i) then 1 else 0)
  }

  ghost predicate Takes(w: System, step: Step, i: nat) {
    || (step.Claim? && Succeeds(w, step.d) && ItemOf(w, step.d) == i)
    || (step == DrainAtomically && i < |w.queue| && w.queue[i].status == Pending && Drainable(w.queue[i]))
  }

  /** The attempt counter counts the claims, so without recovery an item is claimed at most `maxAttempts` times. */
  lemma {:induction false} ClaimsAreCounted(run: seq<System>, steps: seq<Step>, maxAttempts: nat, n: nat, i: nat)
    requires IsRun(run, steps, maxAttempts) && n < |run|
    ensures Claims(run, steps, maxAttempts, n, i) == if i < |run[n].queue| then run[n].queue[i].attempts else 0
  {
    if n > 0 {
      ClaimsAreCounted(run, steps, maxAttempts, n - 1, i);
      assert run[n - 1 + 1] == Next(run[n - 1], steps[n - 1], maxAttempts);
      assert Enabled(run[n - 1], steps[n - 1]);
    }
  }

  lemma {:induction false} ClaimsAreBounded(run: seq<System>, steps: seq<Step>, maxAttempts: nat, n: nat, i: nat)
    requires IsRun(run, steps, maxAttempts) && maxAttempts > 0 && n < |run|
    requires forall k: nat :: k < n ==> steps[k] != Recover
    ensures Claims(run, steps, maxAttempts, n, i) <= maxAttempts
  {
    ClaimsAreCounted(run, steps, maxAttempts, n, i);
    PendingItemsHaveAttemptsLeft(run, steps, maxAttempts, n);
    assert i < |run[n].queue| ==> ItemInBudget(run[n].queue[i], maxAttempts);
  }
}

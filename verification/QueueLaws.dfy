/** What the queue's commands ask for, and what one drain does to every item, in terms of its columns. */
module QueueLaws {
  import opened Base
  import opened Model
  import opened Freshness
  import opened CapabilityStore

  /** A change of definition asks for pending work of every kind about its competency, once. */
  lemma {:induction false} DefinitionRequestsMean(c: Id, x: Item)
    ensures x in DefinitionRequests(c) <==> x.subject == OfCompetency(c) && x.status == Pending && x.attempts == 0
    ensures x in DefinitionRequests(c)[..3] <==> x in DefinitionRequests(c) && x.kind != Kind.Analysis
    ensures |DefinitionRequests(c)| == 4
  {
    var requests := DefinitionRequests(c);
    assert requests[0].kind == CriterionEvaluation && requests[1].kind == Capability;
    assert requests[2].kind == Kind.Review && requests[3].kind == Kind.Analysis;
    assert forall i :: 0 <= i < 3 ==> requests[..3][i] == requests[i];
    if x.subject == OfCompetency(c) && x.status == Pending && x.attempts == 0 {
      match x.kind {
        case CriterionEvaluation => assert requests[0] == x;
        case Capability => assert requests[1] == x;
        case Review => assert requests[2] == x;
        case Analysis => assert requests[3] == x;
      }
    }
  }

  /** An item is about the competency it names or the one its criterion belongs to. */
  lemma {:induction false} ItemCompetencyMeans(item: Item, owners: map<Id, Id>, c: Id)
    ensures ItemCompetency(item, owners) == Some(c) <==>
      item.subject == OfCompetency(c) || exists k: Id :: item.subject == OfCriterion(k) && (k, c) in owners.Items
  {
    match item.subject {
      case OfCriterion(k) => assert k in owners ==> (k, owners[k]) in owners.Items;
      case _ =>
    }
  }

  /** Whether a drain takes the item: it is not for the other drain, and pending, or left running and recovered. */
  ghost predicate Taken(item: Item, recover: bool) {
    item.kind != Kind.Analysis && (item.status == Pending || (recover && item.status == Running))
  }

  /** What the drain leaves of an item. */
  ghost predicate Drained(was: Item, item: Item, recover: bool, fails: bool, maxAttempts: nat) {
    if Taken(was, recover) then
      && item.kind == was.kind && item.subject == was.subject && item.attempts == was.attempts + 1
      && (item.status == ItemStatus.Completed <==> !fails)
      && (item.status == Pending <==> fails && was.attempts + 1 < maxAttempts)
      && (item.status == PermanentFailure <==> fails && maxAttempts <= was.attempts + 1)
    else item == was
  }

  lemma {:induction false} TakenMeans(queue: seq<Item>, recover: bool, i: nat)
    requires i < |queue|
    ensures var item := StartOf(queue, recover)[i];
      item.status == Pending && Drainable(item) <==> Taken(queue[i], recover)
    ensures !Taken(queue[i], recover) ==> StartOf(queue, recover)[i] == queue[i]
    ensures Taken(queue[i], recover) ==> StartOf(queue, recover)[i] == queue[i].(status := Pending)
  {}

  /**
   A drain attempts every item it takes once: the attempt counts, and the item is completed, pending while attempts are
   left, or failed for good.  All other items stay as they are.
   */
  lemma {:induction false} DrainIsExact(queue: seq<Item>, recover: bool, fails: nat -> bool, maxAttempts: nat, i: nat)
    requires i < |queue|
    ensures var start := StartOf(queue, recover);
      var ids := PendingIds(start, |start|);
      && (forall k :: 0 <= k < |ids| ==> ids[k] < |start|)
      && Drained(queue[i], DrainedQueue(start, ids, |ids|, fails, maxAttempts)[i], recover, fails(i), maxAttempts)
  {
    var start := StartOf(queue, recover);
    var ids := PendingIds(start, |start|);
    TakenMeans(queue, recover, i);
    assert i in ids <==> Taken(queue[i], recover);
    DrainAttemptsOnce(start, ids, |ids|, fails, maxAttempts, i);
    assert i in ids <==> exists k :: 0 <= k < |ids| && ids[k] == i;
  }

  ghost function Processed(queue: seq<Item>, recover: bool, fails: nat -> bool, n: nat): set<nat>
    requires n <= |queue|
  {
    set i: nat | i < n && Taken(queue[i], recover) && !fails(i)
  }

  lemma {:induction false} SucceededAppend(ids: seq<nat>, more: seq<nat>, n: nat, fails: nat -> bool)
    requires n <= |ids|
    ensures Succeeded(ids + more, n, fails) == Succeeded(ids, n, fails)
  {
    if n > 0 { SucceededAppend(ids, more, n - 1, fails); }
  }

  lemma {:induction false} ProcessedStep(queue: seq<Item>, recover: bool, fails: nat -> bool, n: nat)
    requires 0 < n <= |queue|
    ensures |Processed(queue, recover, fails, n)| == |Processed(queue, recover, fails, n - 1)|
      + if Taken(queue[n - 1], recover) && !fails(n - 1) then 1 else 0
  {
    var some := Processed(queue, recover, fails, n - 1);
    assert Processed(queue, recover, fails, n)
      == if Taken(queue[n - 1], recover) && !fails(n - 1) then some + {n - 1} else some;
  }

  lemma {:induction false} SucceededStep(start: seq<Item>, fails: nat -> bool, n: nat)
    requires 0 < n <= |start|
    ensures var before, ids := PendingIds(start, n - 1), PendingIds(start, n);
      Succeeded(ids, |ids|, fails) == Succeeded(before, |before|, fails)
        + if start[n - 1].status == Pending && Drainable(start[n - 1]) && !fails(n - 1) then 1 else 0
  {
    var before, ids := PendingIds(start, n - 1), PendingIds(start, n);
    if start[n - 1].status == Pending && Drainable(start[n - 1]) {
      SucceededAppend(before, [n - 1], |before|, fails);
      assert ids == before + [n - 1] && |ids| == |before| + 1;
    } else {
      assert ids == before;
    }
  }

  /** How many of the first items succeed, counted one by one. */
  ghost function CountUpTo(queue: seq<Item>, recover: bool, fails: nat -> bool, n: nat): nat
    requires n <= |queue|
  {
    if n == 0 then 0
    else CountUpTo(queue, recover, fails, n - 1) + if Taken(queue[n - 1], recover) && !fails(n - 1) then 1 else 0
  }

  lemma {:induction false} ProcessedCount(queue: seq<Item>, recover: bool, fails: nat -> bool, n: nat)
    requires n <= |queue|
    ensures |Processed(queue, recover, fails, n)| == CountUpTo(queue, recover, fails, n)
  {
    if n == 0 {
      assert Processed(queue, recover, fails, 0) == {};
    } else {
      ProcessedCount(queue, recover, fails, n - 1);
      ProcessedStep(queue, recover, fails, n);
    }
  }

  ghost predicate StartsFrom(start: seq<Item>, queue: seq<Item>, recover: bool) {
    |start| == |queue| && forall i :: 0 <= i < |queue| ==>
      ((start[i].status == Pending && Drainable(start[i])) <==> Taken(queue[i], recover))
  }

  /** A count that grows by one for every item that succeeds is that number. */
  lemma {:induction false} SameCount(
      f: nat -> int, queue: seq<Item>, recover: bool, fails: nat -> bool, n: nat)
    requires n <= |queue| && f(0) == 0
    requires forall i: nat :: i < n ==> f(i + 1) == f(i) + if Taken(queue[i], recover) && !fails(i) then 1 else 0
    ensures f(n) == CountUpTo(queue, recover, fails, n)
  {
    if n > 0 { SameCount(f, queue, recover, fails, n - 1); }
  }

  /** How many of the first `n` items a drain attempts with success. */
  ghost function SucceededUpTo(start: seq<Item>, fails: nat -> bool, n: nat): int {
    if n > |start| then 0 else Succeeded(PendingIds(start, n), |PendingIds(start, n)|, fails)
  }

  lemma {:induction false} SucceededNext(
      start: seq<Item>, queue: seq<Item>, recover: bool, fails: nat -> bool, i: nat)
    requires StartsFrom(start, queue, recover) && i < |queue|
    ensures SucceededUpTo(start, fails, i + 1) ==
      SucceededUpTo(start, fails, i) + if Taken(queue[i], recover) && !fails(i) then 1 else 0
  {
    SucceededStep(start, fails, i + 1);
  }

  lemma {:induction false} SucceededCount(start: seq<Item>, queue: seq<Item>, recover: bool, fails: nat -> bool)
    requires StartsFrom(start, queue, recover)
    ensures SucceededUpTo(start, fails, |queue|) == CountUpTo(queue, recover, fails, |queue|)
  {
    var f := (n: nat) => SucceededUpTo(start, fails, n);
    forall i: nat | i < |queue|
      ensures f(i + 1) == f(i) + if Taken(queue[i], recover) && !fails(i) then 1 else 0
    {
      SucceededNext(start, queue, recover, fails, i);
    }
    assert f(0) == 0;
    SameCount(f, queue, recover, fails, |queue|);
  }

  /** The number a drain reports is that of the items it took whose evaluation did not fail. */
  lemma {:induction false} DrainCounts(queue: seq<Item>, recover: bool, fails: nat -> bool)
    ensures var start := StartOf(queue, recover);
      var ids := PendingIds(start, |start|);
      Succeeded(ids, |ids|, fails) == |Processed(queue, recover, fails, |queue|)|
  {
    forall i | 0 <= i < |queue|
      ensures var item := StartOf(queue, recover)[i];
        item.status == Pending && Drainable(item) <==> Taken(queue[i], recover)
    {
      TakenMeans(queue, recover, i);
    }
    SucceededCount(StartOf(queue, recover), queue, recover, fails);
    ProcessedCount(queue, recover, fails, |queue|);
  }
}

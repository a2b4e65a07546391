/**
 The in-memory sliding-window limiter: one deque of timestamps per bucket, pruned from the left by every check.
 Callers that add only after a passing check never exceed the budget in any window.
 */
module RateLimiter {
  datatype Rule = Rule(attempts: int, window: int)
  datatype Bucket = Bucket(name: string, key: string)

  datatype Call =
    | Check(bucket: Bucket, rule: Rule, now: int)
    | Add(bucket: Bucket, now: int)
    | Clear(bucket: Bucket)

  type Deques = map<Bucket, seq<int>>

  function Held(events: Deques, b: Bucket): seq<int> { if b in events then events[b] else [] }

  /** Popping from the left stops at the first timestamp after the cutoff. */
  function DropExpired(events: seq<int>, cutoff: int): seq<int> {
    if events != [] && events[0] <= cutoff then DropExpired(events[1..], cutoff) else events
  }

  /** What a check under the rule keeps. */
  function Recent(events: seq<int>, rule: Rule, now: int): seq<int> { DropExpired(events, now - rule.window) }

  lemma {:induction false} RecentEventStays(events: seq<int>, now: int, cutoff: int)
    requires now > cutoff
    ensures DropExpired(events + [now], cutoff) == DropExpired(events, cutoff) + [now]
  {
    if events != [] && events[0] <= cutoff {
      assert (events + [now])[1..] == events[1..] + [now];
      RecentEventStays(events[1..], now, cutoff);
    }
  }

  function Called(events: Deques, call: Call): Deques {
    match call
    case Check(b, rule, now) => events[b := Recent(Held(events, b), rule, now)]
    case Add(b, now) => events[b := Held(events, b) + [now]]
    case Clear(b) => events - {b}
  }

  class Limiter {
    var events: Deques

    constructor ()
      ensures events == map[]
    {
      events := map[];
    }

    method Check(b: Bucket, rule: Rule, now: int) returns (ok: bool)
      modifies this
      ensures events == Called(old(events), Call.Check(b, rule, now))
      ensures ok <==> |Recent(old(Held(events, b)), rule, now)| < rule.attempts
    {
      var held := Held(events, b);
      var cutoff := now - rule.window;
      while |held| > 0 && held[0] <= cutoff
        invariant DropExpired(held, cutoff) == DropExpired(Held(events, b), cutoff)
        decreases |held|
      {
        held := held[1..];
      }
      events := events[b := held];
      ok := |held| < rule.attempts;
    }

    /** The event counts at once in the bucket's every window that ends now, and in no other bucket. */
    method Add(b: Bucket, now: int)
      modifies this
      ensures events == Called(old(events), Call.Add(b, now))
      ensures forall rule: Rule :: rule.window > 0 ==>
        Recent(Held(events, b), rule, now) == Recent(old(Held(events, b)), rule, now) + [now]
      ensures forall other :: other != b ==> Held(events, other) == old(Held(events, other))
    {
      forall rule: Rule | rule.window > 0
        ensures Recent(Held(events, b) + [now], rule, now) == Recent(Held(events, b), rule, now) + [now]
      {
        RecentEventStays(Held(events, b), now, now - rule.window);
      }
      events := events[b := Held(events, b) + [now]];
    }

    /** The bucket starts again with its whole budget; no other bucket does. */
    method Clear(b: Bucket)
      modifies this
      ensures events == Called(old(events), Call.Clear(b))
      ensures Held(events, b) == [] && forall other :: other != b ==> Held(events, other) == old(Held(events, other))
    {
      events := events - {b};
    }
  }

  // ---- Runs -------------------------------------------------------------------------------------

  /** The deques after the first `n` calls on a fresh limiter. */
  function Run(calls: seq<Call>, n: nat): Deques
    requires n <= |calls|
  {
    if n == 0 then map[] else Called(Run(calls, n - 1), calls[n - 1])
  }

  /** Every event of the bucket since it was last cleared, pruned or not. */
  function Past(calls: seq<Call>, n: nat, b: Bucket): seq<int>
    requires n <= |calls|
  {
    if n == 0 then [] else Recorded(Past(calls, n - 1, b), calls[n - 1], b)
  }

  function Recorded(past: seq<int>, call: Call, b: Bucket): seq<int> {
    if call.bucket != b then past
    else match call
      case Check(_, _, _) => past
      case Add(_, now) => past + [now]
      case Clear(_) => []
  }

  /** A time no earlier than the call and no earlier than `now` needs to be. */
  function Instant(call: Call, now: int): int { if call.Clear? then now else call.now }

  /** The bucket's latest call was a check that passed. */
  predicate Admitted(calls: seq<Call>, n: nat, b: Bucket)
    requires n <= |calls|
  {
    n > 0 &&
    if calls[n - 1].bucket != b then Admitted(calls, n - 1, b)
    else calls[n - 1].Check? && |Held(Run(calls, n), b)| < calls[n - 1].rule.attempts
  }

  ghost predicate NoLater(calls: seq<Call>, n: nat, now: int)
    requires n <= |calls|
  {
    forall i: nat :: i < n && !calls[i].Clear? ==> calls[i].now <= now
  }

  /** The clock never goes back. */
  ghost predicate Ticks(calls: seq<Call>) {
    forall n: nat :: n < |calls| && !calls[n].Clear? ==> NoLater(calls, n, calls[n].now)
  }

  /** The clock never goes back, and one rule is used for the bucket. */
  ghost predicate Timely(calls: seq<Call>, b: Bucket, rule: Rule) {
    && Ticks(calls)
    && forall i: nat :: i < |calls| && calls[i].Check? && calls[i].bucket == b ==> calls[i].rule == rule
  }

  /** Every event added to the bucket directly follows, in that bucket, a check that passed. */
  ghost predicate Guarded(calls: seq<Call>, b: Bucket) {
    forall i: nat :: i < |calls| && calls[i].Add? && calls[i].bucket == b ==> Admitted(calls, i, b)
  }

  ghost predicate Sorted(s: seq<int>) { forall i, j :: 0 <= i < j < |s| ==> s[i] <= s[j] }

  // ---- The deque against the full history -------------------------------------------------------

  /** The deque is the history without a prefix of events that are at least a window old. */
  ghost predicate Remembers(held: seq<int>, past: seq<int>, cutoff: int) {
    && |held| <= |past| && past[|past| - |held|..] == held
    && forall i :: 0 <= i < |past| - |held| ==> past[i] <= cutoff
  }

  lemma {:induction false} DropKeepsMemory(held: seq<int>, past: seq<int>, cutoff: int)
    requires Remembers(held, past, cutoff)
    ensures Remembers(DropExpired(held, cutoff), past, cutoff)
    ensures DropExpired(held, cutoff) != [] ==> DropExpired(held, cutoff)[0] > cutoff
  {
    if held != [] && held[0] <= cutoff {
      assert past[|past| - |held|] == held[0];
      assert past[|past| - |held| + 1..] == held[1..];
      DropKeepsMemory(held[1..], past, cutoff);
    }
  }

  ghost predicate SortedUpTo(s: seq<int>, now: int) {
    Sorted(s) && forall i :: 0 <= i < |s| ==> s[i] <= now
  }

  lemma {:induction false} CallsCome(calls: seq<Call>, n: nat, now: int)
    requires 0 < n <= |calls| && Ticks(calls) && NoLater(calls, n, now)
    ensures NoLater(calls, n - 1, Instant(calls[n - 1], now)) && Instant(calls[n - 1], now) <= now
  {}

  lemma {:induction false} RecordedIsSorted(past: seq<int>, call: Call, b: Bucket, now: int)
    requires SortedUpTo(past, Instant(call, now)) && Instant(call, now) <= now
    ensures SortedUpTo(Recorded(past, call, b), now)
  {}

  lemma {:induction false} PastIsSorted(calls: seq<Call>, n: nat, b: Bucket, now: int)
    requires n <= |calls| && Ticks(calls) && NoLater(calls, n, now)
    ensures SortedUpTo(Past(calls, n, b), now)
  {
    if n > 0 {
      CallsCome(calls, n, now);
      PastIsSorted(calls, n - 1, b, Instant(calls[n - 1], now));
      RecordedIsSorted(Past(calls, n - 1, b), calls[n - 1], b, now);
    }
  }

  lemma {:induction false} AddKeepsMemory(held: seq<int>, past: seq<int>, now: int, cutoff: int)
    requires |held| <= |past| && past[|past| - |held|..] == held
    requires forall i :: 0 <= i < |past| - |held| ==> past[i] <= cutoff
    ensures Remembers(held + [now], past + [now], cutoff)
  {
    assert (past + [now])[|past| - |held|..] == held + [now];
  }

  lemma {:induction false} CallKeepsMemory(events: Deques, past: seq<int>, call: Call, b: Bucket, rule: Rule, now: int)
    requires Remembers(Held(events, b), past, Instant(call, now) - rule.window) && Instant(call, now) <= now
    requires call.Check? && call.bucket == b ==> call.rule == rule
    ensures Remembers(Held(Called(events, call), b), Recorded(past, call, b), now - rule.window)
  {
    if call.Check? && call.bucket == b {
      DropKeepsMemory(Held(events, b), past, call.now - rule.window);
    } else if call.Add? && call.bucket == b {
      AddKeepsMemory(Held(events, b), past, call.now, now - rule.window);
    }
  }

  lemma {:induction false} DequeRemembers(calls: seq<Call>, n: nat, b: Bucket, rule: Rule, now: int)
    requires n <= |calls| && Timely(calls, b, rule) && NoLater(calls, n, now)
    ensures Remembers(Held(Run(calls, n), b), Past(calls, n, b), now - rule.window)
  {
    if n > 0 {
      CallsCome(calls, n, now);
      DequeRemembers(calls, n - 1, b, rule, Instant(calls[n - 1], now));
      CallKeepsMemory(Run(calls, n - 1), Past(calls, n - 1, b), calls[n - 1], b, rule, now);
    }
  }

  /** The events after `from`, up to and including `to`. */
  function Window(past: seq<int>, from: int, to: int): seq<int> {
    if past == [] then []
    else
      var last := past[|past| - 1];
      Window(past[..|past| - 1], from, to) + (if from < last <= to then [last] else [])
  }

  lemma {:induction false} WindowOfSuffix(past: seq<int>, k: nat, from: int, to: int)
    requires k <= |past| && (forall i :: 0 <= i < k ==> past[i] <= from)
    requires forall i :: k <= i < |past| ==> from < past[i] <= to
    ensures Window(past, from, to) == past[k..]
  {
    if |past| > k {
      WindowOfSuffix(past[..|past| - 1], k, from, to);
      assert past[k..] == past[..|past| - 1][k..] + [past[|past| - 1]];
    } else if past != [] {
      WindowOfSuffix(past[..|past| - 1], k - 1, from, to);
    }
  }

  lemma {:induction false} PrunedIsRecent(held: seq<int>, past: seq<int>, cutoff: int, now: int)
    requires Remembers(held, past, cutoff) && SortedUpTo(past, now)
    ensures DropExpired(held, cutoff) == Window(past, cutoff, now)
  {
    DropKeepsMemory(held, past, cutoff);
    var kept := DropExpired(held, cutoff);
    var k := |past| - |kept|;
    if kept != [] {
      assert past[k..][0] == past[k];
    }
    WindowOfSuffix(past, k, cutoff, now);
  }

  /** After a check the pruned deque holds exactly the events of the full history that are younger than the window. */
  lemma {:induction false} ChecksCountRecentEvents(calls: seq<Call>, n: nat, b: Bucket, rule: Rule)
    requires n < |calls| && Timely(calls, b, rule) && calls[n].Check? && calls[n].bucket == b
    ensures Held(Run(calls, n + 1), b) == Window(Past(calls, n + 1, b), calls[n].now - rule.window, calls[n].now)
  {
    DequeRemembers(calls, n, b, rule, calls[n].now);
    PastIsSorted(calls, n, b, calls[n].now);
    PrunedIsRecent(Held(Run(calls, n), b), Past(calls, n, b), calls[n].now - rule.window, calls[n].now);
  }

  // ---- The budget -------------------------------------------------------------------------------

  function Budget(rule: Rule): nat { if rule.attempts > 0 then rule.attempts else 0 }

  /** How many events the window that ends at `t` holds after the first `n` calls. */
  function Count(calls: seq<Call>, n: nat, b: Bucket, rule: Rule, t: int): nat
    requires n <= |calls|
  {
    |Window(Past(calls, n, b), t - rule.window, t)|
  }

  /** No window of the rule's length, wherever it ends, ever holds more events than the rule allows. */
  ghost predicate WithinBudget(calls: seq<Call>, b: Bucket, rule: Rule) {
    forall n: nat, t: int :: n <= |calls| ==> Count(calls, n, b, rule, t) <= Budget(rule)
  }

  /** The window that ends with the add still has a place. */
  ghost predicate HasRoom(calls: seq<Call>, i: nat, b: Bucket, rule: Rule)
    requires i < |calls| && calls[i].Add?
  {
    Count(calls, i, b, rule, calls[i].now) < rule.attempts
  }

  ghost predicate AddsFindRoom(calls: seq<Call>, b: Bucket, rule: Rule) {
    forall i: nat :: i < |calls| && calls[i].Add? && calls[i].bucket == b ==> HasRoom(calls, i, b, rule)
  }

  /** Any event and the one `attempts` places later are at least a window apart. */
  ghost predicate Spaced(past: seq<int>, rule: Rule) {
    forall i, j :: 0 <= i <= j < |past| && i + rule.attempts <= j ==> past[i] + rule.window <= past[j]
  }

  lemma {:induction false} WindowCounts(past: seq<int>, k: nat, from: int, to: int)
    requires k <= |past| && forall i :: k <= i < |past| ==> from < past[i] <= to
    ensures |Window(past, from, to)| >= |past| - k
  {
    if k < |past| { WindowCounts(past[..|past| - 1], k, from, to); }
  }

  lemma {:induction false} RoomKeepsSpacing(past: seq<int>, now: int, rule: Rule)
    requires SortedUpTo(past, now) && Spaced(past, rule) && rule.window > 0
    requires |Window(past, now - rule.window, now)| < rule.attempts
    ensures Spaced(past + [now], rule)
  {
    forall i: nat | i < |past| && i + rule.attempts <= |past| ensures past[i] + rule.window <= now {
      if past[i] > now - rule.window { WindowCounts(past, i, now - rule.window, now); }
    }
  }

  lemma {:induction false} AddKeepsSpacing(calls: seq<Call>, i: nat, b: Bucket, rule: Rule)
    requires i < |calls| && calls[i].Add? && Ticks(calls) && HasRoom(calls, i, b, rule)
    requires rule.window > 0 && Spaced(Past(calls, i, b), rule)
    ensures Spaced(Past(calls, i, b) + [calls[i].now], rule)
  {
    PastIsSorted(calls, i, b, calls[i].now);
    RoomKeepsSpacing(Past(calls, i, b), calls[i].now, rule);
  }

  lemma {:induction false} CallKeepsSpacing(calls: seq<Call>, i: nat, b: Bucket, rule: Rule)
    requires i < |calls| && Ticks(calls) && AddsFindRoom(calls, b, rule)
    requires rule.window > 0 && Spaced(Past(calls, i, b), rule)
    ensures Spaced(Past(calls, i + 1, b), rule)
  {
    assert Past(calls, i + 1, b) == Recorded(Past(calls, i, b), calls[i], b);
    if calls[i].Add? && calls[i].bucket == b { AddKeepsSpacing(calls, i, b, rule); }
  }

  lemma {:induction false} RoomSpacesEvents(calls: seq<Call>, n: nat, b: Bucket, rule: Rule)
    requires n <= |calls| && Ticks(calls) && rule.window > 0 && AddsFindRoom(calls, b, rule)
    ensures Spaced(Past(calls, n, b), rule)
  {
    if n > 0 {
      RoomSpacesEvents(calls, n - 1, b, rule);
      CallKeepsSpacing(calls, n - 1, b, rule);
    }
  }

  lemma {:induction false} WindowSkips(past: seq<int>, k: nat, from: int, to: int)
    requires k <= |past| && forall i :: 0 <= i < k ==> past[i] <= from
    ensures |Window(past, from, to)| <= |past| - k
  {
    if past != [] { WindowSkips(past[..|past| - 1], if k == |past| then k - 1 else k, from, to); }
  }

  lemma {:induction false} SpacedWindows(past: seq<int>, rule: Rule, t: int)
    requires Sorted(past) && Spaced(past, rule) && rule.attempts > 0
    ensures |Window(past, t - rule.window, t)| <= rule.attempts
  {
    if past != [] {
      var last := |past| - 1;
      if t - rule.window < past[last] <= t {
        WindowSkips(past, if rule.attempts <= last then last + 1 - rule.attempts else 0, t - rule.window, t);
      } else {
        SpacedWindows(past[..last], rule, t);
      }
    }
  }

  lemma {:induction false} NoRoomNoEvents(calls: seq<Call>, n: nat, b: Bucket, rule: Rule)
    requires n <= |calls| && AddsFindRoom(calls, b, rule) && rule.attempts <= 0
    ensures Past(calls, n, b) == []
  {
    if n > 0 { NoRoomNoEvents(calls, n - 1, b, rule); }
  }

  lemma {:induction false} EmptyWindow(past: seq<int>, from: int, to: int)
    requires from >= to
    ensures Window(past, from, to) == []
  {
    if past != [] { EmptyWindow(past[..|past| - 1], from, to); }
  }

  lemma {:induction false} RoomIsWithinBudget(calls: seq<Call>, n: nat, b: Bucket, rule: Rule, t: int)
    requires n <= |calls| && Ticks(calls) && (rule.window > 0 ==> AddsFindRoom(calls, b, rule))
    ensures Count(calls, n, b, rule, t) <= Budget(rule)
  {
    if rule.window <= 0 {
      EmptyWindow(Past(calls, n, b), t - rule.window, t);
    } else if rule.attempts <= 0 {
      NoRoomNoEvents(calls, n, b, rule);
    } else {
      RoomSpacesEvents(calls, n, b, rule);
      PastStaysSorted(calls, n, b);
      SpacedWindows(Past(calls, n, b), rule, t);
    }
  }

  /** An add without room overfills the window that ends with it. */
  lemma {:induction false} BudgetLeavesRoom(calls: seq<Call>, i: nat, b: Bucket, rule: Rule)
    requires i < |calls| && calls[i].Add? && calls[i].bucket == b && rule.window > 0 && WithinBudget(calls, b, rule)
    ensures HasRoom(calls, i, b, rule)
  {
    var now := calls[i].now;
    var past, from := Past(calls, i, b), now - rule.window;
    assert Past(calls, i + 1, b) == past + [now];
    assert (past + [now])[..|past|] == past;
    assert Window(past + [now], from, now) == Window(past, from, now) + [now];
    assert Count(calls, i + 1, b, rule, now) <= Budget(rule);
  }

  /**
   The limit holds in every window exactly when every add finds fewer events than the rule allows in the window that
   ends with it.  A window of no length holds nothing.
   */
  lemma {:induction false} BudgetHoldsIff(calls: seq<Call>, b: Bucket, rule: Rule)
    requires Ticks(calls)
    ensures WithinBudget(calls, b, rule) <==> rule.window <= 0 || AddsFindRoom(calls, b, rule)
  {
    if rule.window <= 0 || AddsFindRoom(calls, b, rule) {
      forall n: nat, t: int | n <= |calls| ensures Count(calls, n, b, rule, t) <= Budget(rule) {
        RoomIsWithinBudget(calls, n, b, rule, t);
      }
    }
    if WithinBudget(calls, b, rule) && rule.window > 0 {
      forall i: nat | i < |calls| && calls[i].Add? && calls[i].bucket == b ensures HasRoom(calls, i, b, rule) {
        BudgetLeavesRoom(calls, i, b, rule);
      }
    }
  }

  lemma {:induction false} AdmissionLeavesRoom(calls: seq<Call>, n: nat, b: Bucket, rule: Rule)
    requires n <= |calls| && Timely(calls, b, rule) && Admitted(calls, n, b)
    ensures |Held(Run(calls, n), b)| < rule.attempts
  {
    if calls[n - 1].bucket != b { AdmissionLeavesRoom(calls, n - 1, b, rule); }
  }

  lemma {:induction false} DropShortens(events: seq<int>, cutoff: int)
    ensures |DropExpired(events, cutoff)| <= |events|
  {
    if events != [] && events[0] <= cutoff { DropShortens(events[1..], cutoff); }
  }

  /** If every add follows a check that passed, every window of the rule's length stays within the limit. */
  lemma {:induction false} NoWindowExceedsItsBudget(calls: seq<Call>, b: Bucket, rule: Rule)
    requires Timely(calls, b, rule) && Guarded(calls, b)
    ensures WithinBudget(calls, b, rule)
  {
    forall i: nat | i < |calls| && calls[i].Add? && calls[i].bucket == b ensures HasRoom(calls, i, b, rule) {
      var now := calls[i].now;
      AdmissionLeavesRoom(calls, i, b, rule);
      DequeRemembers(calls, i, b, rule, now);
      PastIsSorted(calls, i, b, now);
      PrunedIsRecent(Held(Run(calls, i), b), Past(calls, i, b), now - rule.window, now);
      DropShortens(Held(Run(calls, i), b), now - rule.window);
    }
    BudgetHoldsIff(calls, b, rule);
  }

  lemma {:induction false} PastStaysSorted(calls: seq<Call>, n: nat, b: Bucket)
    requires n <= |calls| && Ticks(calls)
    ensures Sorted(Past(calls, n, b))
  {
    if n > 0 {
      if calls[n - 1].Clear? {
        PastStaysSorted(calls, n - 1, b);
      } else {
        PastIsSorted(calls, n, b, calls[n - 1].now);
      }
    }
  }

  /** Two checks before the first add let both adds through: a check alone does not reserve a place. */
  lemma {:induction false} ChecksDoNotReserve(b: Bucket, window: int, calls: seq<Call>)
    requires window > 0
    requires calls == [Check(b, Rule(1, window), 0), Check(b, Rule(1, window), 0), Add(b, 0), Add(b, 0)]
    ensures Timely(calls, b, Rule(1, window)) && Admitted(calls, 1, b) && Admitted(calls, 2, b)
    ensures Past(calls, 4, b) == [0, 0] && !WithinBudget(calls, b, Rule(1, window))
  {
    assert Run(calls, 0) == map[] && Run(calls, 1) == map[b := []] && Run(calls, 2) == map[b := []];
    assert Past(calls, 2, b) == [] by { assert Past(calls, 1, b) == []; }
    assert Past(calls, 3, b) == [0];
    assert Window(Past(calls, 3, b), 0 - window, 0) == [0];
    BudgetHoldsIff(calls, b, Rule(1, window));
    assert !HasRoom(calls, 3, b, Rule(1, window));
  }
}

/** What the dictionary keyed by occurrence keeps: the last fact of every occurrence. */
module OccurrenceDictionary {
  import opened Base
  import opened ActiveFacts
  import opened Criteria

  /** `f` is the last fact of its occurrence among the facts satisfying `p`: the one the dictionary keeps. */
  ghost predicate LastOfOccurrence(facts: seq<Fact>, p: Fact -> bool, f: Fact) {
    exists i :: 0 <= i < |facts| && facts[i] == f && p(f)
      && forall j :: i < j < |facts| && p(facts[j]) ==> OccurrenceOf(facts[j].evidence) != OccurrenceOf(f.evidence)
  }

  lemma {:induction false} PutKeeps(reps: seq<Fact>, x: Fact, f: Fact)
    requires DistinctOccurrences(reps)
    ensures f in Put(reps, x) <==> f == x || (f in reps && OccurrenceOf(f.evidence) != OccurrenceOf(x.evidence))
  {
    var i := IndexOf(reps, OccurrenceOf(x.evidence));
    if i < |reps| {
      assert Put(reps, x)[i] == x;
    } else {
      assert Put(reps, x)[|reps|] == x;
    }
    if f in reps && OccurrenceOf(f.evidence) != OccurrenceOf(x.evidence) {
      var k :| 0 <= k < |reps| && reps[k] == f;
      assert Put(reps, x)[k] == f;
    }
  }

  lemma {:induction false} LastStep(facts: seq<Fact>, p: Fact -> bool, f: Fact)
    requires facts != []
    ensures var init, x := facts[..|facts| - 1], facts[|facts| - 1];
      LastOfOccurrence(facts, p, f) <==>
        if p(x) then f == x || (LastOfOccurrence(init, p, f) && OccurrenceOf(f.evidence) != OccurrenceOf(x.evidence))
        else LastOfOccurrence(init, p, f)
  {
    var init, x := facts[..|facts| - 1], facts[|facts| - 1];
    if LastOfOccurrence(facts, p, f) {
      var i :| 0 <= i < |facts| && facts[i] == f && p(f)
        && forall j :: i < j < |facts| && p(facts[j]) ==> OccurrenceOf(facts[j].evidence) != OccurrenceOf(f.evidence);
      if i < |init| { assert init[i] == f; }
    }
    if LastOfOccurrence(init, p, f) && (p(x) ==> OccurrenceOf(f.evidence) != OccurrenceOf(x.evidence)) {
      var i :| 0 <= i < |init| && init[i] == f && p(f)
        && forall j :: i < j < |init| && p(init[j]) ==> OccurrenceOf(init[j].evidence) != OccurrenceOf(f.evidence);
      assert facts[i] == f;
      assert forall j :: i < j < |facts| && p(facts[j]) ==>
        OccurrenceOf(facts[j].evidence) != OccurrenceOf(f.evidence) by {
        assert forall j :: i < j < |init| ==> init[j] == facts[j];
      }
    }
    if p(x) && f == x { assert facts[|facts| - 1] == f; }
  }

  lemma {:induction false} KeptStep(facts: seq<Fact>, p: Fact -> bool)
    requires facts != []
    ensures var init, x := facts[..|facts| - 1], facts[|facts| - 1];
      ByOccurrence(Filter(facts, p))
        == if p(x) then Put(ByOccurrence(Filter(init, p)), x) else ByOccurrence(Filter(init, p))
  {
    var kept, x := Filter(facts[..|facts| - 1], p), facts[|facts| - 1];
    if p(x) {
      assert (kept + [x])[..|kept|] == kept;
    } else {
      assert kept + [] == kept;
    }
  }

  /** The dictionary keyed by occurrence keeps exactly the last fact of every occurrence. */
  lemma {:induction false} DictionaryKeepsLast(facts: seq<Fact>, p: Fact -> bool, f: Fact)
    ensures f in ByOccurrence(Filter(facts, p)) <==> LastOfOccurrence(facts, p, f)
  {
    if facts != [] {
      var init, x := facts[..|facts| - 1], facts[|facts| - 1];
      DictionaryKeepsLast(init, p, f);
      LastStep(facts, p, f);
      KeptStep(facts, p);
      if p(x) { PutKeeps(ByOccurrence(Filter(init, p)), x, f); }
    }
  }

  lemma {:induction false} RepresentativeOf(facts: seq<Fact>, f: Fact) returns (g: Fact)
    requires f in facts
    ensures g in ByOccurrence(facts) && OccurrenceOf(g.evidence) == OccurrenceOf(f.evidence)
  {
    ByOccurrenceCovers(facts);
    assert OccurrenceOf(f.evidence) in Occurrences(facts);
    g :| g in ByOccurrence(facts) && OccurrenceOf(g.evidence) == OccurrenceOf(f.evidence);
  }
}

/** The active definition of a competency moves forward only, whatever activations are asked for. */
module Activations {
  import opened Base
  import opened Model

  datatype ActivationReply = NowActive | Replayed | KeyTaken | AlreadyActive | Backward | NoDefinition

  function ReplyToActivation(
      catalog: map<Id, Definition>, active: map<Id, Id>, keys: map<Id, (Id, Id)>, key: Option<Id>, competency: Id,
      definition: Id): ActivationReply
  {
    if definition !in catalog || catalog[definition].competency != competency then NoDefinition
    else if key.Some? && key.value in keys then
      if keys[key.value] == (competency, definition) then Replayed else KeyTaken
    else if competency !in active then NowActive
    else if active[competency] == definition then AlreadyActive
    else if active[competency] in catalog && catalog[definition].version <= catalog[active[competency]].version
      then Backward
    else NowActive
  }

  // ---- When an activation is carried out --------------------------------------------------------

  ghost predicate IsOf(catalog: map<Id, Definition>, competency: Id, definition: Id) {
    definition in catalog && catalog[definition].competency == competency
  }

  ghost predicate KeyUsed(keys: map<Id, (Id, Id)>, key: Option<Id>) { exists k :: k in keys && key == Some(k) }

  /** The definition is another one than the active one, and of a later version as far as that is known. */
  ghost predicate MovesForward(catalog: map<Id, Definition>, active: map<Id, Id>, competency: Id, definition: Id) {
    forall d :: (competency, d) in active.Items ==>
      d != definition && (d in catalog && definition in catalog ==> catalog[d].version < catalog[definition].version)
  }

  /** A known definition of the competency is activated under a key not used before, if that moves forward. */
  lemma {:induction false} ActivatedIff(
      catalog: map<Id, Definition>, active: map<Id, Id>, keys: map<Id, (Id, Id)>, key: Option<Id>, competency: Id,
      definition: Id)
    ensures var reply := ReplyToActivation(catalog, active, keys, key, competency, definition);
      && (reply == NowActive <==>
           && IsOf(catalog, competency, definition) && !KeyUsed(keys, key)
           && MovesForward(catalog, active, competency, definition))
      && (reply == Replayed <==>
           && IsOf(catalog, competency, definition)
           && exists k :: key == Some(k) && (k, (competency, definition)) in keys.Items)
      && (reply == NoDefinition <==> !IsOf(catalog, competency, definition))
      && (reply == AlreadyActive ==> (competency, definition) in active.Items)
  {
    if competency in active { assert (competency, active[competency]) in active.Items; }
    if key.Some? && key.value in keys { assert (key.value, keys[key.value]) in keys.Items; }
  }

  // ---- Runs of activations ----------------------------------------------------------------------

  datatype Request = Request(key: Option<Id>, competency: Id, definition: Id)

  /** Which definitions are active, and which keys were used for what. */
  datatype Activated = Activated(active: map<Id, Id>, keys: map<Id, (Id, Id)>)

  function Answered(catalog: map<Id, Definition>, a: Activated, r: Request): Activated {
    if ReplyToActivation(catalog, a.active, a.keys, r.key, r.competency, r.definition) != NowActive then a
    else
      Activated(a.active[r.competency := r.definition],
        if r.key.Some? then a.keys[r.key.value := (r.competency, r.definition)] else a.keys)
  }

  ghost predicate IsRun(catalog: map<Id, Definition>, run: seq<Activated>, requests: seq<Request>) {
    && |run| == |requests| + 1
    && (forall c :: c in run[0].active ==> run[0].active[c] in catalog)
    && forall i: nat :: i < |requests| ==> run[i + 1] == Answered(catalog, run[i], requests[i])
  }

  /** The version active at `t` is no earlier than that at `s`, and a later one if the definition is another. */
  ghost predicate NotBack(catalog: map<Id, Definition>, s: Activated, t: Activated, c: Id) {
    c in s.active && s.active[c] in catalog ==>
      && c in t.active && t.active[c] in catalog
      && (t.active[c] == s.active[c] || catalog[s.active[c]].version < catalog[t.active[c]].version)
  }

  lemma {:induction false} ActiveIsKnown(
      catalog: map<Id, Definition>, run: seq<Activated>, requests: seq<Request>, n: nat)
    requires IsRun(catalog, run, requests) && n < |run|
    ensures forall c :: c in run[n].active ==> run[n].active[c] in catalog
  {
    if n > 0 {
      ActiveIsKnown(catalog, run, requests, n - 1);
      assert run[n] == Answered(catalog, run[n - 1], requests[n - 1]);
    }
  }

  /** In every run of activations the active version of a competency never goes back. */
  lemma {:induction false} ActiveVersionNeverGoesBack(
      catalog: map<Id, Definition>, run: seq<Activated>, requests: seq<Request>, i: nat, j: nat, c: Id)
    requires IsRun(catalog, run, requests) && i <= j < |run|
    ensures NotBack(catalog, run[i], run[j], c)
  {
    if i < j {
      ActiveVersionNeverGoesBack(catalog, run, requests, i, j - 1, c);
      ActiveIsKnown(catalog, run, requests, j - 1);
      assert run[j] == Answered(catalog, run[j - 1], requests[j - 1]);
    }
  }

  /** A key that was used keeps its meaning, and asking again with it changes nothing. */
  lemma {:induction false} UsedKeysStay(
      catalog: map<Id, Definition>, run: seq<Activated>, requests: seq<Request>, i: nat, j: nat, k: Id)
    requires IsRun(catalog, run, requests) && i <= j < |run| && k in run[i].keys
    ensures k in run[j].keys && run[j].keys[k] == run[i].keys[k]
    ensures forall r: Request :: r.key == Some(k) ==> Answered(catalog, run[j], r) == run[j]
  {
    if i < j {
      UsedKeysStay(catalog, run, requests, i, j - 1, k);
      assert run[j] == Answered(catalog, run[j - 1], requests[j - 1]);
    }
  }
}

/**
 The lifecycle of evidence: creation, supersession, retraction, invalidation and the replacement of a session's
 evidence.  Every run leaves unforked chains with one matching retraction per link, and at most one active fact per
 session.
 */
module Supersession {
  import opened Base
  import opened Model

  /** What identifies the source of a fact; facts have distinct sources. */
  datatype Source =
    | Native(idempotencyKey: string)
    | SessionRole(session: Id, role: string)
    | OtherSource(name: string)

  datatype Fact = Fact(id: Id, source: Source, payload: string, createdAt: int, supersedes: Option<Id>)

  datatype Ending = Ending(evidence: Id, replacement: Option<Id>)

  /** The facts, their retractions and the invalidated ids, in order of insertion. */
  datatype Book = Book(facts: seq<Fact>, retractions: seq<Ending>, invalidated: seq<Id>)

  // ---- Lookups ----------------------------------------------------------------------------------

  function FactById(facts: seq<Fact>, id: Id): (r: Option<Fact>)
    ensures r.Some? ==> r.value in facts && r.value.id == id
    ensures r.None? ==> forall f :: f in facts ==> f.id != id
  {
    if facts == [] then None
    else if facts[|facts| - 1].id == id then Some(facts[|facts| - 1])
    else FactById(facts[..|facts| - 1], id)
  }

  function FactBySource(facts: seq<Fact>, source: Source): (r: Option<Fact>)
    ensures r.Some? ==> r.value in facts && r.value.source == source
    ensures r.None? ==> forall f :: f in facts ==> f.source != source
  {
    if facts == [] then None
    else if facts[|facts| - 1].source == source then Some(facts[|facts| - 1])
    else FactBySource(facts[..|facts| - 1], source)
  }

  function EndingOf(retractions: seq<Ending>, id: Id): (r: Option<Ending>)
    ensures r.Some? ==> r.value in retractions && r.value.evidence == id
    ensures r.None? ==> forall e :: e in retractions ==> e.evidence != id
  {
    if retractions == [] then None
    else if retractions[|retractions| - 1].evidence == id then Some(retractions[|retractions| - 1])
    else EndingOf(retractions[..|retractions| - 1], id)
  }

  predicate IsActive(b: Book, f: Fact) { EndingOf(b.retractions, f.id).None? && f.id !in b.invalidated }

  predicate IsOfSession(f: Fact, session: Id) { f.source.SessionRole? && f.source.session == session }

  /** The session's facts that are neither retracted nor invalidated. */
  function ActiveOf(b: Book, session: Id): (r: seq<Fact>)
    ensures forall f :: f in r <==> f in b.facts && IsOfSession(f, session) && IsActive(b, f)
  {
    Filter(b.facts, (f: Fact) => IsOfSession(f, session) && IsActive(b, f))
  }

  // ---- Commands ---------------------------------------------------------------------------------

  datatype Command =
    | Create(source: Source, payload: string, id: Id, now: int)
    | Supersede(prior: Id, key: string, payload: string, id: Id, now: int)
    | Retract(evidence: Id)
    | Invalidate(evidence: Id)
    | CreateForSession(session: Id, qualifying: bool, role: string, id: Id, now: int)
    | ReplaceForSession(session: Id, qualifying: bool, role: string, id: Id, now: int)
    | RetractForSession(session: Id)

  function WithFact(b: Book, f: Fact): Book { b.(facts := b.facts + [f]) }

  function WithEnding(b: Book, e: Ending): Book { b.(retractions := b.retractions + [e]) }

  /** One retraction for each of the facts. */
  function EndEach(b: Book, facts: seq<Fact>, replacement: Option<Id>): Book
    decreases |facts|
  {
    if facts == [] then b else EndEach(WithEnding(b, Ending(facts[0].id, replacement)), facts[1..], replacement)
  }

  /** The latest of the facts, by creation and then id. */
  function Newest(facts: seq<Fact>): (r: Option<Fact>)
    ensures r.Some? <==> facts != []
    ensures r.Some? ==> r.value in facts
    ensures forall f :: f in facts ==>
      r.Some? && f.createdAt <= r.value.createdAt && (f.createdAt == r.value.createdAt ==> f.id <= r.value.id)
  {
    if facts == [] then None
    else
      assert facts == facts[..|facts| - 1] + [facts[|facts| - 1]];
      var best, f := Newest(facts[..|facts| - 1]), facts[|facts| - 1];
      if best.Some?
        && !(f.createdAt > best.value.createdAt || (f.createdAt == best.value.createdAt && f.id > best.value.id))
      then best else Some(f)
  }

  function IdOf(f: Option<Fact>): Option<Id> { if f.Some? then Some(f.value.id) else None }

  /** The session's fact in the role, made if the session qualifies and there is none. */
  function SessionFact(
      b: Book, session: Id, qualifying: bool, role: string, id: Id, now: int, supersedes: Option<Id>)
    : (Book, Option<Id>)
  {
    var existing := FactBySource(b.facts, SessionRole(session, role));
    if !qualifying then (b, None)
    else if existing.Some? then (b, Some(existing.value.id))
    else (WithFact(b, Fact(id, SessionRole(session, role), "", now, supersedes)), Some(id))
  }

  datatype Refusal = NotFound | AlreadySuperseded | IdempotencyConflict

  datatype Reply = Stored(id: Id) | Refused(why: Refusal)

  function CreateReply(b: Book, source: Source, payload: string, id: Id): Reply {
    var existing := FactBySource(b.facts, source);
    if existing.None? then Stored(id)
    else if existing.value.payload != payload then Refused(IdempotencyConflict)
    else Stored(existing.value.id)
  }

  function SupersedeReply(b: Book, prior: Id, key: string, payload: string, id: Id): Reply {
    var ending, existing := EndingOf(b.retractions, prior), FactBySource(b.facts, Native(key));
    if FactById(b.facts, prior).None? then Refused(NotFound)
    else if ending.Some? then
      var replacement := if ending.value.replacement.Some? then FactById(b.facts, ending.value.replacement.value)
        else None;
      if replacement.Some? && replacement.value.source == Native(key) then CreateReply(b, Native(key), payload, id)
      else Refused(AlreadySuperseded)
    else if existing.Some? && existing.value.payload == payload && existing.value.supersedes != Some(prior)
      then Refused(IdempotencyConflict)
    else CreateReply(b, Native(key), payload, id)
  }

  /** A supersession of an unretracted fact that goes through. */
  function Superseded(b: Book, prior: Id, key: string, payload: string, id: Id, now: int): Book {
    var existing := FactBySource(b.facts, Native(key));
    if existing.Some? then WithEnding(b, Ending(prior, Some(existing.value.id)))
    else WithEnding(WithFact(b, Fact(id, Native(key), payload, now, Some(prior))), Ending(prior, Some(id)))
  }

  /** The book after a command; what is refused or repeated leaves it as it was. */
  function Applied(b: Book, c: Command): Book {
    match c
    case Create(source, payload, id, now) =>
      if FactBySource(b.facts, source).Some? then b else WithFact(b, Fact(id, source, payload, now, None))
    case Supersede(prior, key, payload, id, now) =>
      if SupersedeReply(b, prior, key, payload, id).Refused? || EndingOf(b.retractions, prior).Some? then b
      else Superseded(b, prior, key, payload, id, now)
    case Retract(evidence) =>
      if FactById(b.facts, evidence).None? || EndingOf(b.retractions, evidence).Some? then b
        else WithEnding(b, Ending(evidence, None))
    case Invalidate(evidence) =>
      if FactById(b.facts, evidence).None? || evidence in b.invalidated then b
        else b.(invalidated := b.invalidated + [evidence])
    case CreateForSession(session, qualifying, role, id, now) =>
      SessionFact(b, session, qualifying, role, id, now, None).0
    case ReplaceForSession(session, qualifying, role, id, now) =>
      var previous := ActiveOf(b, session);
      var made := SessionFact(b, session, qualifying, role, id, now, IdOf(Newest(previous)));
      EndEach(made.0, previous, made.1)
    case RetractForSession(session) => EndEach(b, ActiveOf(b, session), None)
  }

  // ---- The invariant ----------------------------------------------------------------------------

  ghost predicate DistinctFacts(facts: seq<Fact>) {
    forall i, j :: 0 <= i < j < |facts| ==> facts[i].id != facts[j].id && facts[i].source != facts[j].source
  }

  /** What a fact supersedes was there before it and is retracted in its favour. */
  ghost predicate LinkOk(b: Book, j: nat)
    requires j < |b.facts|
  {
    b.facts[j].supersedes.Some? ==>
      && Ending(b.facts[j].supersedes.value, Some(b.facts[j].id)) in b.retractions
      && exists i :: 0 <= i < j && b.facts[i].id == b.facts[j].supersedes.value
  }

  /** A retraction is of a known fact, and its replacement is a fact that supersedes it. */
  ghost predicate EndingOk(b: Book, e: Ending) {
    && (exists f :: f in b.facts && f.id == e.evidence)
    && (e.replacement.Some? ==> exists f ::
      f in b.facts && f.id == e.replacement.value && f.supersedes == Some(e.evidence))
  }

  ghost predicate Chained(b: Book) {
    && DistinctFacts(b.facts)
    && (forall j: nat :: j < |b.facts| ==> LinkOk(b, j))
    && (forall i, j :: 0 <= i < j < |b.retractions| ==> b.retractions[i].evidence != b.retractions[j].evidence)
    && forall e :: e in b.retractions ==> EndingOk(b, e)
  }

  ghost predicate Together(b: Book, f: Fact, g: Fact) {
    f.source.SessionRole? && g.source.SessionRole? && f.source.session == g.source.session && IsActive(b, f)
      && IsActive(b, g)
  }

  /** No session has two active facts. */
  ghost predicate OneActive(b: Book) {
    forall f, g :: f in b.facts && g in b.facts && f.id != g.id ==> !Together(b, f, g)
  }

  ghost predicate Sound(b: Book) { Chained(b) && OneActive(b) }

  // ---- The three ways a book grows --------------------------------------------------------------

  lemma {:induction false} IdsAreKeys(facts: seq<Fact>, f: Fact, g: Fact)
    requires DistinctFacts(facts) && f in facts && g in facts && (f.id == g.id || f.source == g.source)
    ensures f == g
  {
    var i :| 0 <= i < |facts| && facts[i] == f;
    var j :| 0 <= j < |facts| && facts[j] == g;
  }

  lemma {:induction false} EndingAppended(retractions: seq<Ending>, e: Ending, id: Id)
    ensures EndingOf(retractions + [e], id) == if e.evidence == id then Some(e) else EndingOf(retractions, id)
  {
    assert (retractions + [e])[..|retractions|] == retractions;
  }

  ghost predicate IsNew(b: Book, f: Fact) {
    forall g :: g in b.facts ==> g.id != f.id && g.source != f.source
  }

  ghost predicate Known(b: Book, id: Id) { exists f :: f in b.facts && f.id == id }

  lemma {:induction false} FactKeepsChains(b: Book, f: Fact)
    requires Chained(b) && IsNew(b, f) && f.supersedes == None
    ensures Chained(WithFact(b, f))
  {
    var u := WithFact(b, f);
    forall j: nat | j < |u.facts| ensures LinkOk(u, j) {
      if j < |b.facts| {
        assert LinkOk(b, j);
        if u.facts[j].supersedes.Some? {
          var i :| 0 <= i < j && b.facts[i].id == b.facts[j].supersedes.value;
          assert u.facts[i].id == u.facts[j].supersedes.value;
        }
      }
    }
    forall e | e in u.retractions ensures EndingOk(u, e) { EndingStaysOk(b, u, e); }
  }

  lemma {:induction false} EndingStaysOk(b: Book, u: Book, e: Ending)
    requires EndingOk(b, e) && b.facts <= u.facts
    ensures EndingOk(u, e)
  {
    var f :| f in b.facts && f.id == e.evidence;
    assert f in u.facts;
    if e.replacement.Some? {
      var g :| g in b.facts && g.id == e.replacement.value && g.supersedes == Some(e.evidence);
      assert g in u.facts;
    }
  }

  lemma {:induction false} EndingKeepsLinks(b: Book, e: Ending, j: nat)
    requires j < |b.facts| && LinkOk(b, j)
    ensures LinkOk(WithEnding(b, e), j)
  {}

  /** Retracting an unretracted known fact. */
  lemma {:induction false} EndingKeepsChains(b: Book, e: Ending)
    requires Chained(b) && EndingOf(b.retractions, e.evidence).None? && EndingOk(b, e)
    ensures Chained(WithEnding(b, e))
  {
    var u := WithEnding(b, e);
    forall j: nat | j < |u.facts| ensures LinkOk(u, j) { EndingKeepsLinks(b, e, j); }
    forall x | x in u.retractions ensures EndingOk(u, x) {
      if x != e { EndingStaysOk(b, u, x); }
    }
    forall i, j | 0 <= i < j < |u.retractions| ensures u.retractions[i].evidence != u.retractions[j].evidence {
      assert b.retractions[i] in b.retractions;
    }
  }

  /** A new fact together with the retraction of the one it supersedes. */
  function Replaced(b: Book, f: Fact, prior: Id): Book { WithEnding(WithFact(b, f), Ending(prior, Some(f.id))) }

  lemma {:induction false} ReplacementKeepsChains(b: Book, f: Fact, prior: Id)
    requires Chained(b) && IsNew(b, f) && f.supersedes == Some(prior) && Known(b, prior)
    requires EndingOf(b.retractions, prior).None?
    ensures Chained(Replaced(b, f, prior))
  {
    var u := Replaced(b, f, prior);
    var e := Ending(prior, Some(f.id));
    forall j: nat | j < |u.facts| ensures LinkOk(u, j) { ReplacementLinks(b, f, prior, j); }
    forall x | x in u.retractions ensures EndingOk(u, x) {
      if x == e {
        var g :| g in b.facts && g.id == prior;
        assert g in u.facts && f in u.facts;
      } else {
        EndingStaysOk(b, u, x);
      }
    }
    forall i, j | 0 <= i < j < |u.retractions| ensures u.retractions[i].evidence != u.retractions[j].evidence {
      assert b.retractions[i] in b.retractions;
    }
  }

  lemma {:induction false} ReplacementLinks(b: Book, f: Fact, prior: Id, j: nat)
    requires Chained(b) && f.supersedes == Some(prior) && Known(b, prior) && j <= |b.facts|
    ensures LinkOk(Replaced(b, f, prior), j)
  {
    var u := Replaced(b, f, prior);
    if j < |b.facts| {
      assert LinkOk(b, j);
      if u.facts[j].supersedes.Some? {
        var i :| 0 <= i < j && b.facts[i].id == b.facts[j].supersedes.value;
        assert u.facts[i].id == u.facts[j].supersedes.value;
      }
    } else {
      var g :| g in b.facts && g.id == prior;
      var i :| 0 <= i < |b.facts| && b.facts[i] == g;
      assert u.facts[i].id == prior;
    }
  }

  // ---- At most one active fact per session ------------------------------------------------------

  lemma {:induction false} EndingKeepsOneActive(b: Book, e: Ending)
    requires OneActive(b)
    ensures OneActive(WithEnding(b, e))
  {
    var u := WithEnding(b, e);
    forall f, g | f in u.facts && g in u.facts && f.id != g.id ensures !Together(u, f, g) {
      EndingAppended(b.retractions, e, f.id);
      EndingAppended(b.retractions, e, g.id);
      assert !Together(b, f, g);
    }
  }

  lemma {:induction false} OtherFactKeepsOneActive(b: Book, f: Fact)
    requires OneActive(b) && !f.source.SessionRole?
    ensures OneActive(WithFact(b, f))
  {
    var u := WithFact(b, f);
    forall g, h | g in u.facts && h in u.facts && g.id != h.id ensures !Together(u, g, h) {
      if g != f && h != f { assert !Together(b, g, h); }
    }
  }

  /** A new fact of a session is unretracted and unnamed by any lifecycle row. */
  ghost predicate Unmentioned(b: Book, id: Id) { EndingOf(b.retractions, id).None? && id !in b.invalidated }

  /** A fact for a session is safe exactly when the session has no active fact. */
  lemma {:induction false} SessionFactKeepsOneActiveIff(b: Book, f: Fact)
    requires OneActive(b) && IsNew(b, f) && f.source.SessionRole? && Unmentioned(b, f.id)
    ensures OneActive(WithFact(b, f)) <==> ActiveOf(b, f.source.session) == []
  {
    var u := WithFact(b, f);
    var active := ActiveOf(b, f.source.session);
    assert f in u.facts;
    if active == [] {
      forall g, h | g in u.facts && h in u.facts && g.id != h.id ensures !Together(u, g, h) {
        if g != f && h != f {
          assert !Together(b, g, h);
        } else {
          var other := if g == f then h else g;
          assert other in b.facts && other !in active;
        }
      }
    } else {
      assert active[0] in active && active[0] in u.facts;
      assert Together(u, f, active[0]);
    }
  }

  /** One active fact replaced by a new one of the same session. */
  lemma {:induction false} ReplacementKeepsOneActive(b: Book, f: Fact, prior: Fact)
    requires OneActive(b) && IsNew(b, f) && f.source.SessionRole? && prior in b.facts && Together(b, prior, prior)
    requires prior.source.session == f.source.session
    ensures OneActive(Replaced(b, f, prior.id))
  {
    var u := Replaced(b, f, prior.id);
    forall g, h | g in u.facts && h in u.facts && g.id != h.id ensures !Together(u, g, h) {
      EndingAppended(b.retractions, Ending(prior.id, Some(f.id)), g.id);
      EndingAppended(b.retractions, Ending(prior.id, Some(f.id)), h.id);
      if g != f && h != f {
        assert !Together(b, g, h);
      } else {
        var other := if g == f then h else g;
        assert other in b.facts;
        assert other.id != prior.id ==> !Together(b, other, prior);
      }
    }
  }

  lemma {:induction false} InvalidationKeepsSound(b: Book, id: Id)
    requires Sound(b)
    ensures Sound(b.(invalidated := b.invalidated + [id]))
  {
    var u := b.(invalidated := b.invalidated + [id]);
    forall j: nat | j < |u.facts| ensures LinkOk(u, j) { assert LinkOk(b, j); }
    forall e | e in u.retractions ensures EndingOk(u, e) { EndingStaysOk(b, u, e); }
    forall f, g | f in u.facts && g in u.facts && f.id != g.id ensures !Together(u, f, g) {
      assert !Together(b, f, g);
    }
  }

  lemma {:induction false} FilterOfDistinct(facts: seq<Fact>, p: Fact -> bool, i: nat, j: nat)
    requires DistinctFacts(facts) && i < j < |Filter(facts, p)|
    ensures Filter(facts, p)[i].id != Filter(facts, p)[j].id
  {
    var front, last := facts[..|facts| - 1], facts[|facts| - 1];
    if j < |Filter(front, p)| {
      FilterOfDistinct(front, p, i, j);
    } else {
      assert Filter(front, p)[i] in Filter(front, p);
    }
  }

  lemma {:induction false} ActivePair(b: Book, session: Id, i: nat, j: nat)
    requires DistinctFacts(b.facts) && i < j < |ActiveOf(b, session)|
    ensures var f, g := ActiveOf(b, session)[i], ActiveOf(b, session)[j];
      f in b.facts && g in b.facts && f.id != g.id && Together(b, f, g)
  {
    FilterOfDistinct(b.facts, (f: Fact) => IsOfSession(f, session) && IsActive(b, f), i, j);
    assert ActiveOf(b, session)[i] in ActiveOf(b, session) && ActiveOf(b, session)[j] in ActiveOf(b, session);
  }

  lemma {:induction false} ActiveIsAtMostOne(b: Book, session: Id)
    requires Sound(b)
    ensures |ActiveOf(b, session)| <= 1
  {
    if |ActiveOf(b, session)| > 1 { ActivePair(b, session, 0, 1); }
  }

  // ---- Commands keep the book sound -------------------------------------------------------------

  /** A creation uses a fresh id, and only session commands make session facts. */
  ghost predicate Proper(b: Book, c: Command) {
    && (c.Create? || c.Supersede? || c.CreateForSession? || c.ReplaceForSession? ==>
      !Known(b, c.id) && Unmentioned(b, c.id))
    && (c.Create? ==> !c.source.SessionRole?)
  }

  predicate MakesNew(b: Book, c: Command) {
    (c.CreateForSession? || c.ReplaceForSession?) && c.qualifying
      && FactBySource(b.facts, SessionRole(c.session, c.role)).None?
  }

  /**
   The guard of the session commands: a first creation needs a session without an active fact, and a replacement
   that finds one needs a role that is not used yet.
   */
  predicate Orderly(b: Book, c: Command) {
    && (c.CreateForSession? && MakesNew(b, c) ==> ActiveOf(b, c.session) == [])
    && (c.ReplaceForSession? && c.qualifying && ActiveOf(b, c.session) != [] ==> MakesNew(b, c))
  }

  lemma {:induction false} SupersedeKeepsSound(b: Book, c: Command)
    requires Sound(b) && Proper(b, c) && c.Supersede?
    ensures Sound(Applied(b, c))
  {
    var existing := FactBySource(b.facts, Native(c.key));
    if !SupersedeReply(b, c.prior, c.key, c.payload, c.id).Refused? && EndingOf(b.retractions, c.prior).None? {
      if existing.Some? {
        SupersededIsEnded(b, existing.value);
        assert false;
      } else {
        var f := Fact(c.id, Native(c.key), c.payload, c.now, Some(c.prior));
        ReplacementKeepsChains(b, f, c.prior);
        OtherFactKeepsOneActive(b, f);
        EndingKeepsOneActive(WithFact(b, f), Ending(c.prior, Some(c.id)));
      }
    }
  }

  /** What a fact supersedes is retracted. */
  lemma {:induction false} SupersededIsEnded(b: Book, f: Fact)
    requires Chained(b) && f in b.facts && f.supersedes.Some?
    ensures EndingOf(b.retractions, f.supersedes.value) == Some(Ending(f.supersedes.value, Some(f.id)))
  {
    var j :| 0 <= j < |b.facts| && b.facts[j] == f;
    assert LinkOk(b, j);
    OneEndingEach(b.retractions, Ending(f.supersedes.value, Some(f.id)));
  }

  lemma {:induction false} OneEndingEach(retractions: seq<Ending>, e: Ending)
    requires e in retractions
    requires forall i, j :: 0 <= i < j < |retractions| ==> retractions[i].evidence != retractions[j].evidence
    ensures EndingOf(retractions, e.evidence) == Some(e)
  {
    var last := |retractions| - 1;
    if retractions[last] != e {
      var i :| 0 <= i < |retractions| && retractions[i] == e;
      assert e in retractions[..last] by { assert retractions[..last][i] == e; }
      OneEndingEach(retractions[..last], e);
    }
  }

  lemma {:induction false} EndOne(b: Book, f: Fact, replacement: Option<Id>)
    ensures EndEach(b, [f], replacement) == WithEnding(b, Ending(f.id, replacement))
  {
    assert [f][1..] == [];
  }

  lemma {:induction false} RetractKeepsSound(b: Book, id: Id)
    requires Sound(b) && Known(b, id) && EndingOf(b.retractions, id).None?
    ensures Sound(WithEnding(b, Ending(id, None)))
  {
    EndingKeepsChains(b, Ending(id, None));
    EndingKeepsOneActive(b, Ending(id, None));
  }

  lemma {:induction false} RetractSessionKeepsSound(b: Book, session: Id)
    requires Sound(b)
    ensures Sound(EndEach(b, ActiveOf(b, session), None))
  {
    var active := ActiveOf(b, session);
    ActiveIsAtMostOne(b, session);
    if active != [] {
      assert active == [active[0]] && active[0] in active;
      EndOne(b, active[0], None);
      RetractKeepsSound(b, active[0].id);
    }
  }

  lemma {:induction false} ReplaceSessionKeepsSound(b: Book, c: Command)
    requires Sound(b) && Proper(b, c) && c.ReplaceForSession? && Orderly(b, c)
    ensures Sound(Applied(b, c))
  {
    var active := ActiveOf(b, c.session);
    ActiveIsAtMostOne(b, c.session);
    if !c.qualifying {
      RetractSessionKeepsSound(b, c.session);
    } else if active == [] {
      if MakesNew(b, c) {
        var f := Fact(c.id, SessionRole(c.session, c.role), "", c.now, None);
        FactKeepsChains(b, f);
        SessionFactKeepsOneActiveIff(b, f);
      }
    } else {
      var prior := active[0];
      assert active == [prior] && prior in active;
      var f := Fact(c.id, SessionRole(c.session, c.role), "", c.now, Some(prior.id));
      assert Newest([prior]) == Some(prior) by { assert [prior][..0] == []; }
      EndOne(WithFact(b, f), prior, Some(c.id));
      ReplacementKeepsChains(b, f, prior.id);
      ReplacementKeepsOneActive(b, f, prior);
    }
  }

  lemma {:induction false} CreateSessionKeepsSound(b: Book, c: Command)
    requires Sound(b) && Proper(b, c) && c.CreateForSession?
    ensures Sound(Applied(b, c)) <==> Orderly(b, c)
  {
    if MakesNew(b, c) {
      var f := Fact(c.id, SessionRole(c.session, c.role), "", c.now, None);
      FactKeepsChains(b, f);
      SessionFactKeepsOneActiveIff(b, f);
    }
  }

  lemma {:induction false} OrderlyCommandKeepsSound(b: Book, c: Command)
    requires Sound(b) && Proper(b, c) && Orderly(b, c)
    ensures Sound(Applied(b, c))
  {
    match c
    case Create(source, payload, id, now) =>
      if FactBySource(b.facts, source).None? {
        FactKeepsChains(b, Fact(id, source, payload, now, None));
        OtherFactKeepsOneActive(b, Fact(id, source, payload, now, None));
      }
    case Supersede(_, _, _, _, _) => SupersedeKeepsSound(b, c);
    case Retract(evidence) =>
      if FactById(b.facts, evidence).Some? && EndingOf(b.retractions, evidence).None? {
        RetractKeepsSound(b, evidence);
      }
    case Invalidate(evidence) => InvalidationKeepsSound(b, evidence);
    case CreateForSession(_, _, _, _, _) => CreateSessionKeepsSound(b, c);
    case ReplaceForSession(_, _, _, _, _) => ReplaceSessionKeepsSound(b, c);
    case RetractForSession(session) => RetractSessionKeepsSound(b, session);
  }

  /** Reusing a role ends the active fact in favour of one that does not supersede it, or of itself. */
  lemma {:induction false} ReusedRoleBreaksTheChain(b: Book, c: Command)
    requires Sound(b) && Proper(b, c) && c.ReplaceForSession? && !Orderly(b, c)
    ensures !Chained(Applied(b, c))
  {
    var active := ActiveOf(b, c.session);
    var existing := FactBySource(b.facts, SessionRole(c.session, c.role)).value;
    ActiveIsAtMostOne(b, c.session);
    var prior := active[0];
    assert active == [prior] && prior in active;
    EndOne(b, prior, Some(existing.id));
    var u, e := Applied(b, c), Ending(prior.id, Some(existing.id));
    assert e in u.retractions;
    if EndingOk(u, e) {
      var g :| g in u.facts && g.id == existing.id && g.supersedes == Some(prior.id);
      IdsAreKeys(b.facts, g, existing);
      SupersededIsEnded(b, g);
      assert false;
    }
  }

  /** A command keeps the book sound exactly when it is orderly. */
  lemma {:induction false} CommandKeepsSoundIff(b: Book, c: Command)
    requires Sound(b) && Proper(b, c)
    ensures Sound(Applied(b, c)) <==> Orderly(b, c)
  {
    if Orderly(b, c) {
      OrderlyCommandKeepsSound(b, c);
    } else if c.CreateForSession? {
      CreateSessionKeepsSound(b, c);
    } else {
      ReusedRoleBreaksTheChain(b, c);
    }
  }

  // ---- Runs -------------------------------------------------------------------------------------

  ghost predicate IsRun(books: seq<Book>, commands: seq<Command>) {
    && |books| == |commands| + 1 && books[0] == Book([], [], [])
    && forall n: nat :: n < |commands| ==>
         Proper(books[n], commands[n]) && Orderly(books[n], commands[n])
           && books[n + 1] == Applied(books[n], commands[n])
  }

  /** In every run of orderly commands every book is sound. */
  lemma {:induction false} EveryBookIsSound(books: seq<Book>, commands: seq<Command>, n: nat)
    requires IsRun(books, commands) && n < |books|
    ensures Sound(books[n]) && forall session :: |ActiveOf(books[n], session)| <= 1
  {
    if n > 0 {
      EveryBookIsSound(books, commands, n - 1);
      assert books[n - 1 + 1] == Applied(books[n - 1], commands[n - 1]);
      OrderlyCommandKeepsSound(books[n - 1], commands[n - 1]);
    }
    forall session ensures |ActiveOf(books[n], session)| <= 1 { ActiveIsAtMostOne(books[n], session); }
  }

  // ---- The commands on the stored rows ----------------------------------------------------------

  class EvidenceBook {
    var facts: seq<Fact>
    var retractions: seq<Ending>
    var invalidated: seq<Id>

    function Contents(): Book
      reads this
    {
      Book(facts, retractions, invalidated)
    }

    constructor ()
      ensures Contents() == Book([], [], [])
    {
      facts, retractions, invalidated := [], [], [];
    }

    /** Create a fact that is not a session's, or find the one its key already made. */
    method CreateNative(
        source: Source, payload: string, id: Id, now: int, supersedes: Option<Id>) returns (reply: Reply)
      modifies this`facts
      ensures reply == CreateReply(old(Contents()), source, payload, id)
      ensures Contents() == if FactBySource(old(facts), source).None?
                            then WithFact(old(Contents()), Fact(id, source, payload, now, supersedes))
                              else old(Contents())
    {
      var existing := FactBySource(facts, source);
      if existing.Some? {
        if existing.value.payload != payload {
          return Refused(IdempotencyConflict);
        }
        return Stored(existing.value.id);
      }
      facts := facts + [Fact(id, source, payload, now, supersedes)];
      reply := Stored(id);
    }

    method SupersedeEvidence(prior: Id, key: string, payload: string, id: Id, now: int) returns (reply: Reply)
      modifies this`facts, this`retractions
      ensures reply == SupersedeReply(old(Contents()), prior, key, payload, id)
      ensures Contents() == Applied(old(Contents()), Supersede(prior, key, payload, id, now))
    {
      if FactById(facts, prior).None? {
        return Refused(NotFound);
      }
      var ending := EndingOf(retractions, prior);
      if ending.Some? {
        var replacement := if ending.value.replacement.Some? then FactById(facts, ending.value.replacement.value)
          else None;
        if replacement.Some? && replacement.value.source == Native(key) {
          reply := CreateNative(Native(key), payload, id, now, Some(prior));
          return;
        }
        return Refused(AlreadySuperseded);
      }
      reply := CreateNative(Native(key), payload, id, now, Some(prior));
      if reply.Refused? {
        return;
      }
      CreatedIsThere(old(facts), facts, Fact(id, Native(key), payload, now, Some(prior)));
      var replacement := FactBySource(facts, Native(key)).value;
      if replacement.supersedes != Some(prior) {
        return Refused(IdempotencyConflict);
      }
      retractions := retractions + [Ending(prior, Some(replacement.id))];
    }

    method RetractEvidence(id: Id) returns (found: bool)
      modifies this`retractions
      ensures found <==> FactById(facts, id).Some?
      ensures Contents() == Applied(old(Contents()), Retract(id))
    {
      if FactById(facts, id).None? {
        return false;
      }
      if EndingOf(retractions, id).None? {
        retractions := retractions + [Ending(id, None)];
      }
      found := true;
    }

    method InvalidateEvidence(id: Id) returns (found: bool)
      modifies this`invalidated
      ensures found <==> FactById(facts, id).Some?
      ensures Contents() == Applied(old(Contents()), Invalidate(id))
    {
      if FactById(facts, id).None? {
        return false;
      }
      if id !in invalidated {
        invalidated := invalidated + [id];
      }
      found := true;
    }

    method CreateSessionEvidence(session: Id, qualifying: bool, role: string, id: Id, now: int, supersedes: Option<Id>)
      returns (made: Option<Id>)
      modifies this`facts
      ensures (Contents(), made) == SessionFact(old(Contents()), session, qualifying, role, id, now, supersedes)
    {
      if !qualifying {
        return None;
      }
      var existing := FactBySource(facts, SessionRole(session, role));
      if existing.Some? {
        return Some(existing.value.id);
      }
      facts := facts + [Fact(id, SessionRole(session, role), "", now, supersedes)];
      made := Some(id);
    }

    /** One retraction for each of the given facts. */
    method RetractEach(previous: seq<Fact>, replacement: Option<Id>)
      modifies this`retractions
      ensures Contents() == EndEach(old(Contents()), previous, replacement)
    {
      var todo := previous;
      while todo != []
        invariant EndEach(Contents(), todo, replacement) == EndEach(old(Contents()), previous, replacement)
        decreases |todo|
      {
        retractions := retractions + [Ending(todo[0].id, replacement)];
        todo := todo[1..];
      }
    }

    method RetractSessionEvidence(session: Id)
      modifies this`retractions
      ensures Contents() == Applied(old(Contents()), RetractForSession(session))
    {
      RetractEach(ActiveOf(Contents(), session), None);
    }

    method ReplaceSessionEvidence(
        session: Id, qualifying: bool, role: string, id: Id, now: int) returns (made: Option<Id>)
      modifies this`facts, this`retractions
      ensures Contents() == Applied(old(Contents()), ReplaceForSession(session, qualifying, role, id, now))
    {
      var previous := ActiveOf(Contents(), session);
      made := CreateSessionEvidence(session, qualifying, role, id, now, IdOf(Newest(previous)));
      RetractEach(previous, made);
    }
  }

  lemma {:induction false} CreatedIsThere(before: seq<Fact>, after: seq<Fact>, f: Fact)
    ensures after == before + [f] ==> FactBySource(after, f.source) == Some(f)
  {
    if after == before + [f] { assert after[|after| - 1] == f; }
  }
}

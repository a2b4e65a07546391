/** What each evidence command replies and leaves in the book, row by row. */
module LifecycleLaws {
  import opened Base
  import opened Model
  import opened Supersession

  ghost predicate From(b: Book, source: Source) { exists f :: f in b.facts && f.source == source }

  ghost predicate Ended(b: Book, id: Id) { exists e :: e in b.retractions && e.evidence == id }

  /** The fact is the session's, and neither retracted nor invalidated. */
  ghost predicate ActiveFor(b: Book, session: Id, f: Fact) {
    f in b.facts && (exists role :: f.source == SessionRole(session, role)) && !Ended(b, f.id) && f.id !in b.invalidated
  }

  lemma {:induction false} ActiveMeans(b: Book, session: Id)
    ensures forall f :: f in ActiveOf(b, session) <==> ActiveFor(b, session, f)
  {
    forall f: Fact ensures IsOfSession(f, session) <==> exists role :: f.source == SessionRole(session, role) {
      if IsOfSession(f, session) { assert f.source == SessionRole(session, f.source.role); }
    }
  }

  /** One ending for each of the facts, in their order. */
  ghost function Endings(facts: seq<Fact>, replacement: Option<Id>): seq<Ending> {
    seq(|facts|, i requires 0 <= i < |facts| => Ending(facts[i].id, replacement))
  }

  lemma {:induction false} EachIsEnded(b: Book, facts: seq<Fact>, replacement: Option<Id>)
    ensures EndEach(b, facts, replacement) == b.(retractions := b.retractions + Endings(facts, replacement))
    decreases |facts|
  {
    if facts != [] {
      var c := WithEnding(b, Ending(facts[0].id, replacement));
      EachIsEnded(c, facts[1..], replacement);
      assert Endings(facts, replacement) == [Ending(facts[0].id, replacement)] + Endings(facts[1..], replacement);
      assert c.retractions + Endings(facts[1..], replacement) == b.retractions + Endings(facts, replacement);
    } else {
      assert b.retractions + Endings(facts, replacement) == b.retractions;
    }
  }

  // ---- The commands -------------------------------------------------------------------------------

  /** The fact, if any, that a session command adds. */
  ghost predicate Makes(b: Book, session: Id, qualifying: bool, role: string) {
    qualifying && !From(b, SessionRole(session, role))
  }

  ghost predicate NoneNewer(b: Book, session: Id, f: Fact) {
    forall g: Fact :: ActiveFor(b, session, g) ==>
      g.createdAt <= f.createdAt && (g.createdAt == f.createdAt ==> g.id <= f.id)
  }

  /** The newest active fact of the session is superseded. */
  ghost predicate IsNewest(b: Book, session: Id, id: Option<Id>) {
    match id
    case None => forall f :: !ActiveFor(b, session, f)
    case Some(x) => exists f: Fact :: f.id == x && ActiveFor(b, session, f) && NoneNewer(b, session, f)
  }

  /** What the session's facts are retracted in favour of. */
  ghost predicate InFavourOf(b: Book, c: Command, made: Option<Id>)
    requires c.ReplaceForSession?
  {
    if !c.qualifying then made.None?
    else if From(b, SessionRole(c.session, c.role)) then
      exists f :: f in b.facts && f.source == SessionRole(c.session, c.role) && made == Some(f.id)
    else made == Some(c.id)
  }

  /** A supersession that goes through: of a known unended fact, by a new key or by the fact that already does it. */
  ghost predicate Supersedes(b: Book, c: Command)
    requires c.Supersede?
  {
    && (exists f :: f in b.facts && f.id == c.prior) && !Ended(b, c.prior)
    && forall f :: f in b.facts && f.source == Native(c.key) ==> f.payload == c.payload && f.supersedes == Some(c.prior)
  }

  ghost predicate Adds(b: Book, t: Book, f: Fact) { t == b.(facts := b.facts + [f]) }

  ghost predicate Ends(b: Book, t: Book, e: Ending) { t == b.(retractions := b.retractions + [e]) }

  ghost predicate SupersedesWith(b: Book, t: Book, c: Command)
    requires c.Supersede?
  {
    if From(b, Native(c.key)) then
      exists f :: f in b.facts && f.source == Native(c.key) && Ends(b, t, Ending(c.prior, Some(f.id)))
    else
      t == Book(b.facts + [Fact(c.id, Native(c.key), c.payload, c.now, Some(c.prior))],
        b.retractions + [Ending(c.prior, Some(c.id))], b.invalidated)
  }

  ghost predicate ReplacesWith(b: Book, t: Book, c: Command)
    requires c.ReplaceForSession?
  {
    exists made, newest ::
      && InFavourOf(b, c, made) && IsNewest(b, c.session, newest)
      && t.facts == b.facts + (
        if Makes(b, c.session, c.qualifying, c.role)
        then [Fact(c.id, SessionRole(c.session, c.role), "", c.now, newest)] else [])
      && t.retractions == b.retractions + Endings(ActiveOf(b, c.session), made) && t.invalidated == b.invalidated
  }

  /** The book after a command, from the one before. */
  ghost predicate Leads(b: Book, c: Command, t: Book) {
    match c
    case Create(source, payload, id, now) =>
      if From(b, source) then t == b else Adds(b, t, Fact(id, source, payload, now, None))
    case Supersede(prior, key, payload, id, now) => if Supersedes(b, c) then SupersedesWith(b, t, c) else t == b
    case Retract(id) =>
      if (exists f :: f in b.facts && f.id == id) && !Ended(b, id) then Ends(b, t, Ending(id, None)) else t == b
    case Invalidate(id) =>
      if (exists f :: f in b.facts && f.id == id) && id !in b.invalidated
      then t == b.(invalidated := b.invalidated + [id]) else t == b
    case CreateForSession(session, qualifying, role, id, now) =>
      if Makes(b, session, qualifying, role)
      then Adds(b, t, Fact(id, SessionRole(session, role), "", now, None)) else t == b
    case ReplaceForSession(session, qualifying, role, id, now) => ReplacesWith(b, t, c)
    case RetractForSession(session) =>
      t == b.(retractions := b.retractions + Endings(ActiveOf(b, session), None))
  }

  lemma {:induction false} OneOfSource(b: Book, source: Source, f: Fact)
    requires DistinctFacts(b.facts) && f in b.facts && f.source == source
    ensures FactBySource(b.facts, source) == Some(f)
  {
    IdsAreKeys(b.facts, FactBySource(b.facts, source).value, f);
  }

  lemma {:induction false} SupersessionIsExact(b: Book, c: Command)
    requires DistinctFacts(b.facts) && c.Supersede?
    ensures Leads(b, c, Applied(b, c))
  {
    forall f | f in b.facts && f.source == Native(c.key) ensures FactBySource(b.facts, Native(c.key)) == Some(f) {
      OneOfSource(b, Native(c.key), f);
    }
  }

  lemma {:induction false} NewestIs(b: Book, session: Id)
    ensures IsNewest(b, session, IdOf(Newest(ActiveOf(b, session))))
  {
    ActiveMeans(b, session);
    var active := ActiveOf(b, session);
    if active != [] { assert active[0] in active; }
    if Newest(active).None? { assert active == []; }
  }

  lemma {:induction false} MadeIs(b: Book, c: Command, newest: Option<Id>)
    requires c.ReplaceForSession?
    ensures var made := SessionFact(b, c.session, c.qualifying, c.role, c.id, c.now, newest);
      && InFavourOf(b, c, made.1)
      && made.0 == b.(facts := b.facts + (
           if Makes(b, c.session, c.qualifying, c.role)
           then [Fact(c.id, SessionRole(c.session, c.role), "", c.now, newest)] else []))
  {}

  lemma {:induction false} ReplacementIsExact(b: Book, c: Command)
    requires c.ReplaceForSession?
    ensures ReplacesWith(b, Applied(b, c), c)
  {
    var previous := ActiveOf(b, c.session);
    var newest := IdOf(Newest(previous));
    var made := SessionFact(b, c.session, c.qualifying, c.role, c.id, c.now, newest);
    NewestIs(b, c.session);
    MadeIs(b, c, newest);
    EachIsEnded(made.0, previous, made.1);
  }

  /** Every command adds, ends and invalidates exactly what it should. */
  lemma {:induction false} CommandIsExact(b: Book, c: Command)
    requires DistinctFacts(b.facts)
    ensures Leads(b, c, Applied(b, c))
  {
    match c {
      case Supersede(_, _, _, _, _) => SupersessionIsExact(b, c);
      case ReplaceForSession(_, _, _, _, _) => ReplacementIsExact(b, c);
      case RetractForSession(session) => EachIsEnded(b, ActiveOf(b, session), None);
      case _ =>
    }
  }

  // ---- The replies --------------------------------------------------------------------------------

  /** A fact of the key whose content is the one asked for. */
  ghost predicate Answers(b: Book, source: Source, payload: string, id: Id) {
    exists f :: f in b.facts && f.source == source && f.payload == payload && f.id == id
  }

  /** The ended fact was ended in favour of the one with the key. */
  ghost predicate EndedFor(b: Book, prior: Id, key: string) {
    exists e, f :: e in b.retractions && e.evidence == prior && f in b.facts && f.source == Native(key)
      && e.replacement == Some(f.id)
  }

  lemma {:induction false} CreationReply(b: Book, source: Source, payload: string, id: Id)
    requires DistinctFacts(b.facts)
    ensures var r := CreateReply(b, source, payload, id);
      && (forall x :: r == Stored(x) <==> if From(b, source) then Answers(b, source, payload, x) else x == id)
      && (r.Refused? ==> r.why == IdempotencyConflict && From(b, source))
  {
    forall f | f in b.facts && f.source == source ensures FactBySource(b.facts, source) == Some(f) {
      OneOfSource(b, source, f);
    }
  }

  lemma {:induction false} OneEnding(b: Book, e: Ending)
    requires Chained(b) && e in b.retractions
    ensures EndingOf(b.retractions, e.evidence) == Some(e)
  {
    var r := EndingOf(b.retractions, e.evidence).value;
    var i :| 0 <= i < |b.retractions| && b.retractions[i] == e;
    var j :| 0 <= j < |b.retractions| && b.retractions[j] == r;
    assert i == j;
  }

  lemma {:induction false} EndedForMeans(b: Book, prior: Id, key: string)
    requires Chained(b) && Ended(b, prior)
    ensures EndingOf(b.retractions, prior).Some?
    ensures var e := EndingOf(b.retractions, prior).value;
      var replacement := if e.replacement.Some? then FactById(b.facts, e.replacement.value) else None;
      EndedFor(b, prior, key) <==> replacement.Some? && replacement.value.source == Native(key)
  {
    if EndedFor(b, prior, key) {
      var e, f :| e in b.retractions && e.evidence == prior && f in b.facts && f.source == Native(key)
        && e.replacement == Some(f.id);
      OneEnding(b, e);
      IdsAreKeys(b.facts, FactById(b.facts, f.id).value, f);
    }
  }

  /**
   A supersession of unknown evidence is not found; one of ended evidence is answered if it was ended for this key, and
   refused otherwise; any other is answered as a creation that supersedes the evidence.
   */
  lemma {:induction false} SupersessionReply(b: Book, c: Command)
    requires Chained(b) && c.Supersede?
    ensures var r := SupersedeReply(b, c.prior, c.key, c.payload, c.id);
      && (r == Refused(NotFound) <==> forall f :: f in b.facts ==> f.id != c.prior)
      && (r == Refused(AlreadySuperseded) <==>
           (exists f :: f in b.facts && f.id == c.prior) && Ended(b, c.prior) && !EndedFor(b, c.prior, c.key))
      && (forall x :: r == Stored(x) <==>
           && (exists f :: f in b.facts && f.id == c.prior)
           && if Ended(b, c.prior) then EndedFor(b, c.prior, c.key) && Answers(b, Native(c.key), c.payload, x)
              else if From(b, Native(c.key)) then Supersedes(b, c) && Answers(b, Native(c.key), c.payload, x)
              else x == c.id)
  {
    CreationReply(b, Native(c.key), c.payload, c.id);
    forall f | f in b.facts && f.source == Native(c.key) ensures FactBySource(b.facts, Native(c.key)) == Some(f) {
      OneOfSource(b, Native(c.key), f);
    }
    if Ended(b, c.prior) { EndedForMeans(b, c.prior, c.key); }
  }
}

/**
 Rows of the evidence log and of the definition catalogue.  Row ids are naturals: only their
 equality and their total order are used.  Timestamps are epoch milliseconds.
 */
module Model {
  import opened Base

  type Id = nat

  datatype EvidenceType = Session | Verification | Project | Code | Assessment | Manual | Imported | Review

  datatype Strength = UnknownStrength | Weak | Moderate | Strong {
    function Rank(): nat {
      match this case UnknownStrength => 0 case Weak => 1 case Moderate => 2 case Strong => 3
    }
  }

  datatype Independence = UnknownIndependence | Guided | Assisted | Independent | NotApplicable

  /** Both the confidence in a source and the aggregate confidence in a level. */
  datatype Confidence = Unknown | Low | Medium | High {
    function Rank(): nat {
      match this case Unknown => 0 case Low => 1 case Medium => 2 case High => 3
    }
  }

  datatype Effect = Supports | Contradicts | ContextOnly

  datatype Authority = NoAuthority | LocalUserConfirmed | TrustedExternalAssessor

  /** The fields of an evidence row's provenance document that the engine reads. */
  datatype Provenance = Provenance(
    assessmentSession: Option<string>,
    context: Option<string>,
    activity: Option<string>,
    captureMethod: string,
    rubricReferences: map<Id, string>,
    rubricCriterion: Option<Id>,
    rubricReference: Option<string>,
    downgradeAuthority: Authority,
    maximumLevel: Option<Id>)

  datatype Evidence = Evidence(
    id: Id,
    evidenceType: EvidenceType,
    sourceType: string,
    sourceId: string,
    strength: Strength,
    independence: Independence,
    sourceConfidence: Confidence,
    occurredAt: Option<int>,
    createdAt: int,
    provenance: Provenance,
    artifactHash: Option<string>,
    authoritative: bool)

  /** `details` stands for the scale version, level and relevance, which are compared but decide nothing. */
  datatype Link = Link(
    id: Id,
    evidenceId: Id,
    competency: Id,
    criterionIdentity: Option<Id>,
    criterion: Option<Id>,
    dimension: Option<Id>,
    effect: Effect,
    details: Id,
    contribution: Option<Id>,
    createdAt: int)

  datatype Retraction = Retraction(evidenceId: Id, createdAt: int)
  datatype Invalidation = Invalidation(evidenceId: Id, createdAt: int)
  datatype LinkRetraction = LinkRetraction(linkId: Id, createdAt: int)

  /** The append-only evidence log. */
  datatype Log = Log(
    evidence: seq<Evidence>,
    links: seq<Link>,
    retractions: seq<Retraction>,
    invalidations: seq<Invalidation>,
    linkRetractions: seq<LinkRetraction>)

  /** One capability scope: a competency, overall or in one dimension. */
  datatype Key = Key(competency: Id, dimension: Option<Id>)

  datatype Level = Level(id: Id, key: string, rank: int)

  datatype Requirement = Required | Important | Supporting

  datatype Rule =
    | Exposure
    | GuidedPerformance
    | IndependentPerformance
    | RepeatedIndependentPerformance
    | AuthoritativeAssessment

  datatype Criterion = Criterion(
    id: Id,
    level: Id,
    dimension: Option<Id>,
    requirement: Requirement,
    rule: Rule,
    rubric: Option<string>,
    createdAt: int)

  datatype Definition = Definition(
    id: Id,
    competency: Id,
    version: int,
    scale: string,
    levels: seq<Level>,
    dimensions: seq<Id>,
    criteria: seq<Criterion>)

  function LevelIds(levels: seq<Level>): set<Id> { set l | l in levels :: l.id }

  function LevelById(levels: seq<Level>, id: Id): (r: Level)
    requires id in LevelIds(levels)
    ensures r in levels && r.id == id
  {
    if levels[0].id == id then levels[0]
    else
      assert exists l :: l in levels[1..] && l.id == id by {
        var l :| l in levels && l.id == id;
        var k :| 0 <= k < |levels| && levels[k] == l;
        assert levels[1..][k - 1] == l;
      }
      LevelById(levels[1..], id)
  }

  /** The scale as the database constraints leave it: ids unique, ranks non-negative and strictly increasing. */
  ghost predicate WellFormedLevels(levels: seq<Level>) {
    && (forall i :: 0 <= i < |levels| ==> levels[i].rank >= 0)
    && (forall i, j :: 0 <= i < j < |levels| ==> levels[i].rank < levels[j].rank)
    && (forall i, j :: 0 <= i < j < |levels| ==> levels[i].id != levels[j].id)
  }

  lemma {:induction false} LevelByIdUnique(levels: seq<Level>, l: Level)
    requires WellFormedLevels(levels) && l in levels
    ensures l.id in LevelIds(levels) && LevelById(levels, l.id) == l
  {
    var i :| 0 <= i < |levels| && levels[i] == l;
    var m := LevelById(levels, l.id);
    var j :| 0 <= j < |levels| && levels[j] == m;
    assert i == j;
  }

  ghost predicate WellFormedCriteria(levels: seq<Level>, criteria: seq<Criterion>) {
    && (forall c :: c in criteria ==> c.level in LevelIds(levels))
    && (forall i, j :: 0 <= i < j < |criteria| ==> criteria[i].id != criteria[j].id)
  }

  ghost predicate WellFormedDefinition(d: Definition) {
    && WellFormedLevels(d.levels)
    && WellFormedCriteria(d.levels, d.criteria)
    && (forall i, j :: 0 <= i < j < |d.dimensions| ==> d.dimensions[i] != d.dimensions[j])
  }
}

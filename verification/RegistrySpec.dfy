/** The calibration artifact registry as a state machine over its four tables,
    and the fail-closed champion resolver. */
module RegistrySpec {
  import opened Options

  // ----- identities

  /** Parts joined by a bar: the text every deterministic id is a SHA-256 of. */
  function Join(parts: seq<string>): string {
    if parts == [] then ""
    else if |parts| == 1 then parts[0]
    else parts[0] + "|" + Join(parts[1..])
  }

  datatype ModelProfile = StructuralCore | LiveEnhanced

  function ProfileName(p: ModelProfile): string {
    match p
    case StructuralCore => "STRUCTURAL_CORE"
    case LiveEnhanced => "LIVE_ENHANCED"
  }

  /** The compatibility fields of an artifact or of an active configuration. */
  datatype Slot = Slot(
    profile: ModelProfile, baseModel: string, simulationConfig: string, featureContract: string,
    propContract: string, calibrationContract: string, scopeType: string, checkpointScope: string)

  /** A digest is identified with the text it hashes. */
  datatype Digest = Digest(text: string)

  function DigestParts(s: Slot): seq<string> {
    ["calibration_compatibility_digest/v2", ProfileName(s.profile), s.baseModel, s.simulationConfig,
     s.featureContract, s.propContract, s.calibrationContract, s.scopeType, s.checkpointScope]
  }

  function CompatibilityDigest(s: Slot): Digest { Digest(Join(DigestParts(s))) }

  /** Scope and checkpoint come from closed lists and a digest is hexadecimal, so
      the key's own parts never hold a bar. */
  datatype ChampionKey = ChampionKey(scopeType: string, checkpointScope: string, digest: Digest)

  function KeyOf(s: Slot): ChampionKey {
    ChampionKey(s.scopeType, s.checkpointScope, CompatibilityDigest(s))
  }

  /** Every immutable column: identity, compatibility fields, and all the rest. */
  datatype ContentHash = ContentHash(id: string, slot: Slot, body: string) | ForeignHash(hex: string)

  datatype Artifact = Artifact(id: string, slot: Slot, body: string, contentSha: ContentHash, createdAt: int)

  function ScientificContentHash(a: Artifact): ContentHash { ContentHash(a.id, a.slot, a.body) }

  datatype Gate = Chronology | Leakage | SimulationInvariants | Reproducibility | SupportPreservation
                | FirstTdSimplex | PromotionGate

  datatype ValidationId = ValidationId(artifactId: string, manifest: string, scoredFrom: int, scoredThrough: int)

  datatype Validation = Validation(id: ValidationId, artifactId: string, passed: set<Gate>, evidence: string, createdAt: int)

  datatype EventKind = Registered | Approved | Promoted | Invalidated | Retired

  /** The parts of an event id; only the reason, between bar-free parts, is free text. */
  datatype EventId = EventId(artifactId: string, kind: EventKind, validation: Option<ValidationId>, reason: string, at: int)

  datatype Event = Event(id: EventId, artifactId: string, kind: EventKind, validation: Option<ValidationId>,
                         detail: string, createdAt: int)

  datatype Champion = Champion(key: ChampionKey, artifactId: string, promotedVia: EventId, updatedAt: int)

  datatype Registry = Registry(
    artifacts: map<string, Artifact>, validations: map<ValidationId, Validation>,
    events: seq<Event>, champions: map<ChampionKey, Champion>)

  const EMPTY := Registry(map[], map[], [], map[])

  datatype Contract = Contract(scopeTypes: set<string>, checkpointScopes: set<string>,
                               approvalGates: set<Gate>, promotionGates: set<Gate>)

  // ----- lifecycle predicates over one artifact's events

  function EventsOf(events: seq<Event>, id: string): seq<Event> {
    if events == [] then []
    else EventsOf(events[..|events| - 1], id)
         + if events[|events| - 1].artifactId == id then [events[|events| - 1]] else []
  }

  predicate Terminal(kind: EventKind) { kind == Invalidated || kind == Retired }

  predicate TerminallyIneligible(es: seq<Event>) { exists e :: e in es && Terminal(e.kind) }

  /** The newest terminal event is older than the newest approval, if there is one. */
  predicate HasApproved(es: seq<Event>) {
    exists a :: a in es && a.kind == Approved
      && forall t :: t in es && Terminal(t.kind) ==> t.createdAt < a.createdAt
  }

  function InsertEvent(events: seq<Event>, e: Event): seq<Event> {
    if exists x :: x in events && x.id == e.id then events else events + [e]
  }

  function NewEvent(artifactId: string, kind: EventKind, validation: Option<ValidationId>, reason: string, detail: string, at: int): Event {
    Event(EventId(artifactId, kind, validation, reason, at), artifactId, kind, validation, detail, at)
  }

  // ----- the steps

  datatype Op =
    | Register(artifact: Artifact)
    | RecordValidation(validation: Validation, labelsDisjoint: bool)
    | Approve(id: string, via: ValidationId, reason: string, detail: string, at: int)
    | Promote(id: string, via: ValidationId, reason: string, detail: string, at: int)
    | Terminate(id: string, kind: EventKind, reason: string, detail: string, at: int)
    // the process stops between the two writes of a registration or promotion
    | RegisterTorn(artifact: Artifact)
    | PromoteTorn(id: string, via: ValidationId, reason: string, detail: string, at: int)

  datatype Reply = Done | AlreadyRegistered | HashMismatch | Conflict | ArtifactMissing | LabelsOverlap
                 | Ineligible | ValidationMissing | ApprovalGate | PromotionGateFailed

  function RegisterCheck(r: Registry, a: Artifact): Reply {
    if a.contentSha != ScientificContentHash(a) then HashMismatch
    else if a.id in r.artifacts then
      if r.artifacts[a.id].contentSha == a.contentSha then AlreadyRegistered else Conflict
    else Done
  }

  function ApproveCheck(r: Registry, c: Contract, id: string, via: ValidationId): Reply {
    if id !in r.artifacts then ArtifactMissing
    else if TerminallyIneligible(EventsOf(r.events, id)) then Ineligible
    else if via !in r.validations || r.validations[via].artifactId != id then ValidationMissing
    else if !(c.approvalGates <= r.validations[via].passed) then ApprovalGate
    else Done
  }

  function PromoteCheck(r: Registry, c: Contract, id: string, via: ValidationId): Reply {
    if id !in r.artifacts then ArtifactMissing
    else if TerminallyIneligible(EventsOf(r.events, id)) then Ineligible
    else if !HasApproved(EventsOf(r.events, id)) then PromotionGateFailed
    else if via !in r.validations || r.validations[via].artifactId != id then ValidationMissing
    else if !(c.promotionGates <= r.validations[via].passed) then PromotionGateFailed
    else Done
  }

  function WithEvent(r: Registry, e: Event): Registry { r.(events := InsertEvent(r.events, e)) }

  function PromotedEvent(op: Op): Event
    requires op.Promote? || op.PromoteTorn?
  {
    NewEvent(op.id, Promoted, Some(op.via), op.reason, op.detail, op.at)
  }

  function Check(r: Registry, c: Contract, op: Op): Reply {
    match op
    case Register(a) => RegisterCheck(r, a)
    case RegisterTorn(a) => RegisterCheck(r, a)
    case RecordValidation(v, disjointLabels) =>
      if v.artifactId !in r.artifacts then ArtifactMissing else if !disjointLabels then LabelsOverlap else Done
    case Approve(id, via, _, _, _) => ApproveCheck(r, c, id, via)
    case Promote(id, via, _, _, _) => PromoteCheck(r, c, id, via)
    case PromoteTorn(id, via, _, _, _) => PromoteCheck(r, c, id, via)
    case Terminate(id, _, _, _, _) => if id !in r.artifacts then ArtifactMissing else Done
  }

  function Step(r: Registry, c: Contract, op: Op): Registry {
    if Check(r, c, op) != Done then r
    else match op
      case Register(a) =>
        WithEvent(r.(artifacts := r.artifacts[a.id := a]), NewEvent(a.id, Registered, None, "", "", a.createdAt))
      case RegisterTorn(a) => r.(artifacts := r.artifacts[a.id := a])
      case RecordValidation(v, _) => if v.id in r.validations then r else r.(validations := r.validations[v.id := v])
      case Approve(id, via, reason, detail, at) => WithEvent(r, NewEvent(id, Approved, Some(via), reason, detail, at))
      case Promote(id, via, reason, detail, at) =>
        var s := r.artifacts[id].slot;
        var p := WithEvent(r, PromotedEvent(op));
        p.(champions := p.champions[KeyOf(s) := Champion(KeyOf(s), id, PromotedEvent(op).id, at)])
      case PromoteTorn(id, via, reason, detail, at) => WithEvent(r, PromotedEvent(op))
      case Terminate(id, kind, reason, detail, at) => WithEvent(r, NewEvent(id, kind, None, reason, detail, at))
  }

  /** Callers build validations through their deterministic id, and only
      invalidate or retire is recorded as a terminal event. */
  predicate WellFormed(op: Op) {
    match op
    case RecordValidation(v, _) => v.id.artifactId == v.artifactId
    case Terminate(_, kind, _, _, _) => Terminal(kind)
    case _ => true
  }

  function Run(r: Registry, c: Contract, ops: seq<Op>): Registry
    decreases |ops|
  {
    if ops == [] then r else Run(Step(r, c, ops[0]), c, ops[1..])
  }

  predicate AllWellFormed(ops: seq<Op>) { forall i :: 0 <= i < |ops| ==> WellFormed(ops[i]) }

  // ----- resolution

  function PromotedVia(es: seq<Event>, id: EventId): Option<ValidationId> {
    if es == [] then None
    else if es[0].kind == Promoted && es[0].id == id then es[0].validation
    else PromotedVia(es[1..], id)
  }

  /** None unless every eligibility check holds exactly. */
  function Resolve(r: Registry, c: Contract, q: Slot, payloadVerifies: Artifact -> bool): Option<Artifact> {
    if q.scopeType !in c.scopeTypes || q.checkpointScope !in c.checkpointScopes then None
    else if KeyOf(q) !in r.champions then None
    else
      var champion := r.champions[KeyOf(q)];
      if champion.key.digest != CompatibilityDigest(q) || champion.artifactId !in r.artifacts then None
      else
        var a := r.artifacts[champion.artifactId];
        var es := EventsOf(r.events, a.id);
        if TerminallyIneligible(es) || !HasApproved(es) then None
        else
          var via := PromotedVia(es, champion.promotedVia);
          if via == None || via.value !in r.validations || r.validations[via.value].artifactId != a.id then None
          else if !(c.promotionGates <= r.validations[via.value].passed) then None
          else if CompatibilityDigest(a.slot) != CompatibilityDigest(q) || a.slot != q then None
          else if !payloadVerifies(a) then None
          else Some(a)
  }
}

/** The registry as a service over its four stored tables. */
module Registry {
  import opened Options
  import opened RegistrySpec

  class CalibrationRegistry {
    var artifacts: map<string, Artifact>
    var validations: map<ValidationId, Validation>
    var events: seq<Event>
    var champions: map<ChampionKey, Champion>
    const contract: Contract

    function Contents(): RegistrySpec.Registry
      reads this
    {
      RegistrySpec.Registry(artifacts, validations, events, champions)
    }

    constructor (contract: Contract)
      ensures Contents() == EMPTY && this.contract == contract
    {
      this.contract := contract;
      artifacts, validations, events, champions := map[], map[], [], map[];
    }

    // ----- the store: keep-first inserts and one upsert

    method InsertLifecycleEvent(e: Event)
      modifies this`events
      ensures events == InsertEvent(old(events), e)
    {
      var i := 0;
      while i < |events|
        invariant 0 <= i <= |events| && events == old(events)
        invariant forall j :: 0 <= j < i ==> events[j].id != e.id
      {
        if events[i].id == e.id { return; }
        i := i + 1;
      }
      events := events + [e];
    }

    method InsertValidation(v: Validation)
      modifies this`validations
      ensures validations == if v.id in old(validations) then old(validations) else old(validations)[v.id := v]
    {
      if v.id !in validations { validations := validations[v.id := v]; }
    }

    method LoadLifecycleEvents(id: string) returns (es: seq<Event>)
      ensures es == EventsOf(events, id)
    {
      es := [];
      for i := 0 to |events|
        invariant es == EventsOf(events[..i], id)
      {
        assert events[..i + 1][..i] == events[..i];
        if events[i].artifactId == id { es := es + [events[i]]; }
      }
      assert events[..|events|] == events;
    }

    // ----- the operations

    method Register(artifact: Artifact) returns (reply: Reply)
      modifies this
      ensures reply == Check(old(Contents()), contract, Op.Register(artifact))
      ensures Contents() == Step(old(Contents()), contract, Op.Register(artifact))
    {
      if artifact.contentSha != ScientificContentHash(artifact) { return HashMismatch; }
      if artifact.id in artifacts {
        if artifacts[artifact.id].contentSha == artifact.contentSha { return AlreadyRegistered; }
        return Conflict;
      }
      artifacts := artifacts[artifact.id := artifact];
      InsertLifecycleEvent(NewEvent(artifact.id, Registered, None, "", "", artifact.createdAt));
      return Done;
    }

    method RecordValidation(v: Validation, labelsDisjoint: bool) returns (reply: Reply)
      modifies this
      ensures reply == Check(old(Contents()), contract, Op.RecordValidation(v, labelsDisjoint))
      ensures Contents() == Step(old(Contents()), contract, Op.RecordValidation(v, labelsDisjoint))
    {
      if v.artifactId !in artifacts { return ArtifactMissing; }
      if !labelsDisjoint { return LabelsOverlap; }
      InsertValidation(v);
      return Done;
    }

    method Approve(id: string, via: ValidationId, reason: string, detail: string, at: int) returns (reply: Reply)
      modifies this
      ensures reply == Check(old(Contents()), contract, Op.Approve(id, via, reason, detail, at))
      ensures Contents() == Step(old(Contents()), contract, Op.Approve(id, via, reason, detail, at))
    {
      if id !in artifacts { return ArtifactMissing; }
      var es := LoadLifecycleEvents(id);
      var terminal := IsTerminallyIneligible(es);
      if terminal { return Ineligible; }
      if via !in validations || validations[via].artifactId != id { return ValidationMissing; }
      if !(contract.approvalGates <= validations[via].passed) { return ApprovalGate; }
      InsertLifecycleEvent(NewEvent(id, Approved, Some(via), reason, detail, at));
      return Done;
    }

    method Promote(id: string, via: ValidationId, reason: string, detail: string, at: int) returns (reply: Reply)
      modifies this
      ensures reply == Check(old(Contents()), contract, Op.Promote(id, via, reason, detail, at))
      ensures Contents() == Step(old(Contents()), contract, Op.Promote(id, via, reason, detail, at))
    {
      if id !in artifacts { return ArtifactMissing; }
      var es := LoadLifecycleEvents(id);
      var terminal := IsTerminallyIneligible(es);
      if terminal { return Ineligible; }
      var approved := HasApprovedEvent(es);
      if !approved { return PromotionGateFailed; }
      if via !in validations || validations[via].artifactId != id { return ValidationMissing; }
      if !(contract.promotionGates <= validations[via].passed) { return PromotionGateFailed; }
      var e := NewEvent(id, Promoted, Some(via), reason, detail, at);
      InsertLifecycleEvent(e);
      var key := KeyOf(artifacts[id].slot);
      champions := champions[key := Champion(key, id, e.id, at)];
      return Done;
    }

    method Invalidate(id: string, reason: string, detail: string, at: int) returns (reply: Reply)
      modifies this
      ensures reply == Check(old(Contents()), contract, Op.Terminate(id, Invalidated, reason, detail, at))
      ensures Contents() == Step(old(Contents()), contract, Op.Terminate(id, Invalidated, reason, detail, at))
    {
      reply := RecordTerminalEvent(id, Invalidated, reason, detail, at);
    }

    method Retire(id: string, reason: string, detail: string, at: int) returns (reply: Reply)
      modifies this
      ensures reply == Check(old(Contents()), contract, Op.Terminate(id, Retired, reason, detail, at))
      ensures Contents() == Step(old(Contents()), contract, Op.Terminate(id, Retired, reason, detail, at))
    {
      reply := RecordTerminalEvent(id, Retired, reason, detail, at);
    }

    method RecordTerminalEvent(id: string, kind: EventKind, reason: string, detail: string, at: int) returns (reply: Reply)
      modifies this
      ensures reply == Check(old(Contents()), contract, Op.Terminate(id, kind, reason, detail, at))
      ensures Contents() == Step(old(Contents()), contract, Op.Terminate(id, kind, reason, detail, at))
    {
      if id !in artifacts { return ArtifactMissing; }
      InsertLifecycleEvent(NewEvent(id, kind, None, reason, detail, at));
      return Done;
    }

    /** Fail-closed resolution: the guards in the order they are applied. */
    method ResolveCalibrationChampion(q: Slot, payloadVerifies: Artifact -> bool) returns (found: Option<Artifact>)
      ensures found == Resolve(Contents(), contract, q, payloadVerifies)
    {
      if q.scopeType !in contract.scopeTypes { return None; }
      if q.checkpointScope !in contract.checkpointScopes { return None; }
      var digest := CompatibilityDigest(q);
      var key := KeyOf(q);
      if key !in champions { return None; }
      var champion := champions[key];
      if champion.key.digest != digest { return None; }
      if champion.artifactId !in artifacts { return None; }
      var artifact := artifacts[champion.artifactId];
      var es := LoadLifecycleEvents(artifact.id);
      var terminal := IsTerminallyIneligible(es);
      if terminal { return None; }
      var approved := HasApprovedEvent(es);
      if !approved { return None; }
      var via := FindPromotion(es, champion.promotedVia);
      if via == None { return None; }
      if via.value !in validations || validations[via.value].artifactId != artifact.id { return None; }
      if !(contract.promotionGates <= validations[via.value].passed) { return None; }
      if CompatibilityDigest(artifact.slot) != digest { return None; }
      if artifact.slot != q { return None; }
      if !payloadVerifies(artifact) { return None; }
      return Some(artifact);
    }
  }

  // ----- reading one artifact's history

  /** The time of the newest event of the kinds asked for. */
  method Latest(es: seq<Event>, wanted: EventKind -> bool) returns (newest: Option<int>)
    ensures newest.None? <==> forall e :: e in es ==> !wanted(e.kind)
    ensures newest.Some? ==> exists e :: e in es && wanted(e.kind) && e.createdAt == newest.value
    ensures newest.Some? ==> forall e :: e in es && wanted(e.kind) ==> e.createdAt <= newest.value
  {
    newest := None;
    ghost var top: int := 0;
    for i := 0 to |es|
      invariant newest.None? <==> forall j :: 0 <= j < i ==> !wanted(es[j].kind)
      invariant newest.Some? ==> 0 <= top < i && wanted(es[top].kind) && es[top].createdAt == newest.value
      invariant newest.Some? ==> forall j :: 0 <= j < i && wanted(es[j].kind) ==> es[j].createdAt <= newest.value
    {
      if wanted(es[i].kind) && (newest.None? || newest.value < es[i].createdAt) {
        newest := Some(es[i].createdAt);
        top := i;
      }
    }
  }

  method IsTerminallyIneligible(es: seq<Event>) returns (terminal: bool)
    ensures terminal == TerminallyIneligible(es)
  {
    var newest := Latest(es, (k: EventKind) => Terminal(k));
    terminal := newest.Some?;
  }

  method HasApprovedEvent(es: seq<Event>) returns (approved: bool)
    ensures approved == HasApproved(es)
  {
    var granted := Latest(es, (k: EventKind) => k == Approved);
    if granted.None? { return false; }
    var ended := Latest(es, (k: EventKind) => Terminal(k));
    approved := ended.None? || ended.value < granted.value;
  }

  method FindPromotion(es: seq<Event>, id: EventId) returns (via: Option<ValidationId>)
    ensures via == PromotedVia(es, id)
  {
    var i := 0;
    while i < |es|
      invariant 0 <= i <= |es|
      invariant PromotedVia(es, id) == PromotedVia(es[i..], id)
    {
      if es[i].kind == Promoted && es[i].id == id { return es[i].validation; }
      assert es[i..][1..] == es[i + 1..];
      i := i + 1;
    }
    via := None;
  }
}

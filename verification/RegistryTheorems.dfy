/** Lifecycle safety of the registry over every run of operations. */
module RegistryTheorems {
  import opened Options
  import opened RegistrySpec

  // ----- events

  lemma {:induction false} EventsOfMembers(events: seq<Event>, id: string)
    ensures forall e :: e in EventsOf(events, id) <==> e in events && e.artifactId == id
  {
    if events != [] {
      var n := |events| - 1;
      EventsOfMembers(events[..n], id);
      assert events == events[..n] + [events[n]];
    }
  }

  lemma EventsOfInsert(events: seq<Event>, e: Event, id: string)
    ensures InsertEvent(events, e) == events
         || EventsOf(InsertEvent(events, e), id) == EventsOf(events, id) + if e.artifactId == id then [e] else []
    ensures e.artifactId != id ==> EventsOf(InsertEvent(events, e), id) == EventsOf(events, id)
  {
    assert (events + [e])[..|events|] == events;
  }

  lemma {:induction false} PromotedViaFound(es: seq<Event>, id: EventId)
    ensures PromotedVia(es, id).Some? ==>
              exists e :: e in es && e.kind == Promoted && e.id == id && e.validation == PromotedVia(es, id)
  {
    if es != [] { PromotedViaFound(es[1..], id); assert es == [es[0]] + es[1..]; }
  }

  lemma {:induction false} PromotedViaMore(es: seq<Event>, more: seq<Event>, id: EventId)
    requires exists e :: e in es && e.kind == Promoted && e.id == id
    ensures PromotedVia(es + more, id) == PromotedVia(es, id)
  {
    if !(es[0].kind == Promoted && es[0].id == id) {
      assert es == [es[0]] + es[1..];
      PromotedViaMore(es[1..], more, id);
    }
    assert (es + more)[1..] == es[1..] + more;
  }

  // ----- the invariant of every reachable registry

  ghost predicate HasEvent(r: Registry, id: string, kind: EventKind) {
    exists e :: e in r.events && e.artifactId == id && e.kind == kind
  }

  /** A champion row points at a promotion of its own artifact, made for the
      artifact's own slot with a stored validation, after an approval. */
  ghost predicate ChampionOk(r: Registry, key: ChampionKey) requires key in r.champions {
    var ch := r.champions[key];
    && ch.key == key && ch.artifactId in r.artifacts && KeyOf(r.artifacts[ch.artifactId].slot) == key
    && HasEvent(r, ch.artifactId, Approved)
    && (exists e :: e in r.events && e.id == ch.promotedVia && e.kind == Promoted && e.artifactId == ch.artifactId)
  }

  ghost predicate Inv(r: Registry) {
    && (forall id :: id in r.artifacts ==> r.artifacts[id].id == id)
    && (forall e :: e in r.events ==> EventOk(r, e))
    && (forall key :: key in r.champions ==> ChampionOk(r, key))
  }

  ghost predicate EventOk(r: Registry, e: Event) {
    && e.artifactId in r.artifacts && e.id == EventId(e.artifactId, e.kind, e.validation, e.id.reason, e.createdAt)
    && (e.kind == Promoted ==> e.validation.Some? && e.validation.value in r.validations)
  }

  /** Nothing but champion rows is ever replaced or removed. */
  ghost predicate Grows(r: Registry, r': Registry) {
    && (forall id :: id in r.artifacts ==> id in r'.artifacts && r'.artifacts[id] == r.artifacts[id])
    && (forall v :: v in r.validations ==> v in r'.validations && r'.validations[v] == r.validations[v])
    && (forall e :: e in r.events ==> e in r'.events)
  }

  lemma StepGrows(r: Registry, c: Contract, op: Op)
    ensures Grows(r, Step(r, c, op))
  {
  }

  lemma InsertedEvent(events: seq<Event>, e: Event)
    ensures exists x :: x in InsertEvent(events, e) && x.id == e.id
    ensures forall x :: x in InsertEvent(events, e) ==> x in events || x == e
  {
    if !(exists x :: x in events && x.id == e.id) { assert e in events + [e]; }
  }

  lemma OldChampionOk(r: Registry, r': Registry, key: ChampionKey)
    requires Inv(r) && Grows(r, r') && key in r.champions && key in r'.champions && r'.champions[key] == r.champions[key]
    ensures ChampionOk(r', key)
  {
    assert ChampionOk(r, key);
    var ch := r.champions[key];
    var a :| a in r.events && a.artifactId == ch.artifactId && a.kind == Approved;
    assert a in r'.events;
    var e :| e in r.events && e.id == ch.promotedVia && e.kind == Promoted && e.artifactId == ch.artifactId;
    assert e in r'.events;
  }

  /** The event a step inserts. */
  function OpEvent(op: Op): Option<Event> {
    match op
    case Register(a) => Some(NewEvent(a.id, Registered, None, "", "", a.createdAt))
    case Approve(id, via, reason, detail, at) => Some(NewEvent(id, Approved, Some(via), reason, detail, at))
    case Promote(_, _, _, _, _) => Some(PromotedEvent(op))
    case PromoteTorn(_, _, _, _, _) => Some(PromotedEvent(op))
    case Terminate(id, kind, reason, detail, at) => Some(NewEvent(id, kind, None, reason, detail, at))
    case _ => None
  }

  lemma StepEvents(r: Registry, c: Contract, op: Op)
    requires WellFormed(op)
    ensures Step(r, c, op).events == if Check(r, c, op) == Done && OpEvent(op).Some?
                                     then InsertEvent(r.events, OpEvent(op).value) else r.events
  {
  }

  lemma StepKeepsInv(r: Registry, c: Contract, op: Op)
    requires Inv(r) && WellFormed(op)
    ensures Inv(Step(r, c, op))
  {
    hide Step, EventOk, ChampionOk, Grows;
    StepKeepsArtifactIds(r, c, op);
    StepKeepsEvents(r, c, op);
    StepKeepsChampions(r, c, op);
  }

  lemma StepKeepsArtifactIds(r: Registry, c: Contract, op: Op)
    requires Inv(r)
    ensures forall id :: id in Step(r, c, op).artifacts ==> Step(r, c, op).artifacts[id].id == id
  {
    hide EventOk, ChampionOk;
  }

  lemma StepKeepsEvents(r: Registry, c: Contract, op: Op)
    requires Inv(r) && WellFormed(op)
    ensures forall e :: e in Step(r, c, op).events ==> EventOk(Step(r, c, op), e)
  {
    hide Step, ChampionOk;
    var r' := Step(r, c, op);
    StepGrows(r, c, op);
    StepEvents(r, c, op);
    if OpEvent(op).Some? {
      InsertedEvent(r.events, OpEvent(op).value);
      if Check(r, c, op) == Done { StepEventOk(r, c, op); }
    }
    forall e | e in r'.events ensures EventOk(r', e) {
      if e in r.events { assert EventOk(r, e); }
    }
  }

  /** The event of an accepted step refers to stored rows only. */
  lemma StepEventOk(r: Registry, c: Contract, op: Op)
    requires Inv(r) && WellFormed(op) && OpEvent(op).Some? && Check(r, c, op) == Done
    ensures EventOk(Step(r, c, op), OpEvent(op).value)
  {
    hide ChampionOk, EventsOf, InsertEvent;
  }

  lemma StepKeepsChampions(r: Registry, c: Contract, op: Op)
    requires Inv(r) && WellFormed(op)
    ensures forall key :: key in Step(r, c, op).champions ==> ChampionOk(Step(r, c, op), key)
  {
    hide Step, ChampionOk, EventOk;
    var r' := Step(r, c, op);
    StepGrows(r, c, op);
    forall key | key in r'.champions ensures ChampionOk(r', key) {
      OnlyPromotionMovesChampions(r, c, op, key);
      if key in r.champions && r'.champions[key] == r.champions[key] {
        OldChampionOk(r, r', key);
      } else {
        PromotedChampionOk(r, c, op);
      }
    }
  }

  /** A champion row changes only by an accepted promotion, and only its own. */
  lemma OnlyPromotionMovesChampions(r: Registry, c: Contract, op: Op, key: ChampionKey)
    requires key in Step(r, c, op).champions
    ensures (key in r.champions && Step(r, c, op).champions[key] == r.champions[key])
         || (op.Promote? && Check(r, c, op) == Done && key == KeyOf(r.artifacts[op.id].slot))
  {
  }

  lemma PromotedChampionOk(r: Registry, c: Contract, op: Op)
    requires Inv(r) && op.Promote? && Check(r, c, op) == Done
    ensures var key := KeyOf(r.artifacts[op.id].slot);
            key in Step(r, c, op).champions && ChampionOk(Step(r, c, op), key)
  {
    var r' := Step(r, c, op);
    var es := EventsOf(r.events, op.id);
    EventsOfMembers(r.events, op.id);
    var a :| a in es && a.kind == Approved;
    InsertedEvent(r.events, PromotedEvent(op));
    StepGrows(r, c, op);
    assert a in r'.events;
    var x :| x in r'.events && x.id == PromotedEvent(op).id;
    if x in r.events { assert EventOk(r, x); }
  }

  lemma RestWellFormed(ops: seq<Op>)
    requires ops != [] && AllWellFormed(ops)
    ensures WellFormed(ops[0]) && AllWellFormed(ops[1..])
  {
    forall i | 0 <= i < |ops[1..]| ensures WellFormed(ops[1..][i]) { assert WellFormed(ops[i + 1]); }
  }

  lemma {:induction false} RunKeepsInv(r: Registry, c: Contract, ops: seq<Op>)
    requires Inv(r) && AllWellFormed(ops)
    ensures Inv(Run(r, c, ops)) && Grows(r, Run(r, c, ops))
    decreases |ops|
  {
    if ops != [] {
      assert WellFormed(ops[0]);
      StepKeepsInv(r, c, ops[0]);
      StepGrows(r, c, ops[0]);
      RestWellFormed(ops);
      RunKeepsInv(Step(r, c, ops[0]), c, ops[1..]);
    }
  }

  // ----- the evidence behind approvals and promotions

  /** The event names a stored validation of its own artifact that passes `gates`. */
  predicate Backed(r: Registry, e: Event, gates: set<Gate>) {
    && e.validation.Some? && e.validation.value in r.validations
    && r.validations[e.validation.value].artifactId == e.artifactId
    && gates <= r.validations[e.validation.value].passed
  }

  predicate EvidenceOk(r: Registry, c: Contract, e: Event) {
    && (e.kind == Approved ==> Backed(r, e, c.approvalGates))
    && (e.kind == Promoted ==> Backed(r, e, c.promotionGates))
  }

  predicate Evidenced(r: Registry, c: Contract) { forall e :: e in r.events ==> EvidenceOk(r, c, e) }

  lemma StepKeepsEvidence(r: Registry, c: Contract, op: Op)
    requires Evidenced(r, c) && WellFormed(op)
    ensures Evidenced(Step(r, c, op), c)
  {
    hide Step, EvidenceOk;
    var r' := Step(r, c, op);
    StepGrows(r, c, op);
    StepEvents(r, c, op);
    if OpEvent(op).Some? {
      InsertedEvent(r.events, OpEvent(op).value);
      if Check(r, c, op) == Done { StepEvidence(r, c, op); }
    }
    forall e | e in r'.events ensures EvidenceOk(r', c, e) {
      if e in r.events { EvidenceStays(r, r', c, e); }
    }
  }

  lemma StepEvidence(r: Registry, c: Contract, op: Op)
    requires WellFormed(op) && OpEvent(op).Some? && Check(r, c, op) == Done
    ensures EvidenceOk(Step(r, c, op), c, OpEvent(op).value)
  {
    hide EventsOf, InsertEvent;
  }

  lemma EvidenceStays(r: Registry, r': Registry, c: Contract, e: Event)
    requires Grows(r, r') && EvidenceOk(r, c, e)
    ensures EvidenceOk(r', c, e)
  {
  }

  lemma {:induction false} RunKeepsEvidence(r: Registry, c: Contract, ops: seq<Op>)
    requires Evidenced(r, c) && AllWellFormed(ops)
    ensures Evidenced(Run(r, c, ops), c)
    decreases |ops|
  {
    hide Step, Evidenced, AllWellFormed;
    if ops != [] {
      RestWellFormed(ops);
      StepKeepsEvidence(r, c, ops[0]);
      RunKeepsEvidence(Step(r, c, ops[0]), c, ops[1..]);
    }
  }

  // ----- which validations are stored

  /** An accepted validation is the one stored under its id after any later
      operations exactly when the id was new or already held the same content;
      any other content is dropped, though the call reports success. */
  lemma ValidationIsStoredExactly(r: Registry, c: Contract, op: Op, ops: seq<Op>)
    requires Inv(r) && AllWellFormed(ops) && WellFormed(op) && op.RecordValidation? && Check(r, c, op) == Done
    ensures var v, later := op.validation, Run(Step(r, c, op), c, ops);
            && v.id in later.validations
            && (later.validations[v.id] == v <==> v.id !in r.validations || r.validations[v.id] == v)
            && (v.id in r.validations ==> later.validations[v.id] == r.validations[v.id])
  {
    hide Run, Inv;
    StepKeepsInv(r, c, op);
    RunKeepsInv(Step(r, c, op), c, ops);
  }

  /** Evidence that is corrected under the same manifest and window is dropped: the
      second call reports success, and an approval by it is still refused by the
      gates the first one failed. */
  lemma CorrectedValidationIsDropped(c: Contract, a: Artifact, id: ValidationId, ops: seq<Op>)
    requires a.contentSha == ScientificContentHash(a) && id.artifactId == a.id && c.approvalGates != {} && AllWellFormed(ops)
    ensures var failed, passed := Validation(id, a.id, {}, "failed", 1), Validation(id, a.id, c.approvalGates, "passed", 2);
            var r := Run(EMPTY, c, [Register(a), RecordValidation(failed, true)]);
            && Check(r, c, RecordValidation(passed, true)) == Done && Step(r, c, RecordValidation(passed, true)) == r
            && id in Run(r, c, ops).validations && Run(r, c, ops).validations[id] == failed
            && forall reason, detail, at :: Check(Run(r, c, ops), c, Approve(a.id, id, reason, detail, at)) != Done
  {
    var failed := Validation(id, a.id, {}, "failed", 1);
    var first := Step(EMPTY, c, Register(a));
    var second := Step(first, c, RecordValidation(failed, true));
    assert [Register(a), RecordValidation(failed, true)][1..] == [RecordValidation(failed, true)];
    assert [RecordValidation(failed, true)][1..] == [];
    assert Run(first, c, [RecordValidation(failed, true)]) == Run(second, c, []) == second;
    assert Run(EMPTY, c, [Register(a), RecordValidation(failed, true)]) == second;
    EmptyInv();
    StepKeepsInv(EMPTY, c, Register(a));
    ValidationIsStoredExactly(first, c, RecordValidation(failed, true), ops);
  }

  // ----- which artifacts have their registration event

  /** The operation that first stores an artifact under `id`. */
  function StoringOp(r: Registry, c: Contract, ops: seq<Op>, id: string): Option<Op>
    decreases |ops|
  {
    if ops == [] then None
    else if id in Step(r, c, ops[0]).artifacts then Some(ops[0])
    else StoringOp(Step(r, c, ops[0]), c, ops[1..], id)
  }

  /** The step that first stores an artifact is a registration, and leaves its
      event exactly when it was not torn. */
  lemma StoringStep(r: Registry, c: Contract, op: Op, id: string)
    requires Inv(r) && WellFormed(op) && id !in r.artifacts && id in Step(r, c, op).artifacts
    ensures op.Register? || op.RegisterTorn?
    ensures HasEvent(Step(r, c, op), id, Registered) <==> op.Register?
  {
    hide ChampionOk;
    var r' := Step(r, c, op);
    forall e | e in r.events ensures e.artifactId != id && e.id.artifactId != id { assert EventOk(r, e); }
    if op.Register? {
      var e := OpEvent(op).value;
      InsertedEvent(r.events, e);
      var x :| x in r'.events && x.id == e.id;
      assert x == e;
    }
  }

  /** Afterwards no operation changes whether the event exists. */
  lemma RegistrationIsSettled(r: Registry, c: Contract, op: Op, id: string)
    requires Inv(r) && WellFormed(op) && id in r.artifacts
    ensures id in Step(r, c, op).artifacts
    ensures HasEvent(Step(r, c, op), id, Registered) <==> HasEvent(r, id, Registered)
  {
    hide Step, EventsOf, HasApproved, TerminallyIneligible;
    StepGrows(r, c, op);
    StepEvents(r, c, op);
    if OpEvent(op).Some? {
      InsertedEvent(r.events, OpEvent(op).value);
      if Check(r, c, op) == Done { NotRegisteredAgain(r, c, op, id); }
    }
  }

  lemma NotRegisteredAgain(r: Registry, c: Contract, op: Op, id: string)
    requires WellFormed(op) && id in r.artifacts && Check(r, c, op) == Done && OpEvent(op).Some?
    ensures !(OpEvent(op).value.kind == Registered && OpEvent(op).value.artifactId == id)
  {
    hide EventsOf;
  }

  lemma {:induction false} RegistrationStaysSettled(r: Registry, c: Contract, ops: seq<Op>, id: string)
    requires Inv(r) && AllWellFormed(ops) && id in r.artifacts
    ensures HasEvent(Run(r, c, ops), id, Registered) <==> HasEvent(r, id, Registered)
    decreases |ops|
  {
    hide Step, Inv, HasEvent, AllWellFormed;
    if ops != [] {
      RestWellFormed(ops);
      StepKeepsInv(r, c, ops[0]);
      RegistrationIsSettled(r, c, ops[0], id);
      RegistrationStaysSettled(Step(r, c, ops[0]), c, ops[1..], id);
    }
  }

  /** After any run, an artifact it stored has its registration event exactly when
      the operation that first stored it was not interrupted between its two
      writes; no retry ever changes that. */
  lemma {:induction false} RegisteredExactly(r: Registry, c: Contract, ops: seq<Op>, id: string)
    requires Inv(r) && AllWellFormed(ops) && id !in r.artifacts
    ensures id in Run(r, c, ops).artifacts <==> StoringOp(r, c, ops, id).Some?
    ensures StoringOp(r, c, ops, id).Some? ==>
              var op := StoringOp(r, c, ops, id).value;
              (op.Register? || op.RegisterTorn?) && (HasEvent(Run(r, c, ops), id, Registered) <==> op.Register?)
    decreases |ops|
  {
    hide Step, Inv, HasEvent, AllWellFormed;
    if ops != [] {
      var r' := Step(r, c, ops[0]);
      RestWellFormed(ops);
      StepKeepsInv(r, c, ops[0]);
      if id in r'.artifacts {
        StoringStep(r, c, ops[0], id);
        RunKeepsInv(r', c, ops[1..]);
        RegistrationStaysSettled(r', c, ops[1..], id);
      } else {
        RegisteredExactly(r', c, ops[1..], id);
      }
    }
  }

  /** An interrupted registration: stored, retried, and never recorded. */
  lemma TornRegistrationIsNeverRecorded(c: Contract, a: Artifact, ops: seq<Op>)
    requires a.contentSha == ScientificContentHash(a) && AllWellFormed(ops)
    ensures var start := Run(EMPTY, c, [RegisterTorn(a), Register(a)]);
            && start.artifacts == map[a.id := a] && start.events == []
            && !HasEvent(Run(start, c, ops), a.id, Registered)
  {
    var first := Step(EMPTY, c, RegisterTorn(a));
    assert [RegisterTorn(a), Register(a)][1..] == [Register(a)] && [Register(a)][1..] == [];
    assert first.artifacts == map[a.id := a];
    assert Step(first, c, Register(a)) == first;
    assert Run(first, c, [Register(a)]) == Run(first, c, []);
    assert Run(EMPTY, c, [RegisterTorn(a), Register(a)]) == Run(first, c, [Register(a)]);
    StepKeepsInv(EMPTY, c, RegisterTorn(a));
    RegistrationStaysSettled(first, c, ops, a.id);
  }

  // ----- what a resolved champion has behind it

  ghost predicate Eligible(r: Registry, c: Contract, q: Slot, a: Artifact) {
    && a.slot == q && a.id in r.artifacts && r.artifacts[a.id] == a
    && (exists e :: e in r.events && e.artifactId == a.id && e.kind == Approved && Backed(r, e, c.approvalGates))
    && !HasEvent(r, a.id, Invalidated) && !HasEvent(r, a.id, Retired)
    && KeyOf(q) in r.champions && r.champions[KeyOf(q)].artifactId == a.id
    && exists e :: e in r.events && e.artifactId == a.id && e.kind == Promoted && Backed(r, e, c.promotionGates)
         && e.id == r.champions[KeyOf(q)].promotedVia
  }

  /** In every reachable state a resolved champion matches the requested slot
      exactly, has an approval by a stored validation of its own that passes the
      approval gates, the promotion its champion row names by one that passes the
      promotion gates, and no terminal event; and it has its registration event
      exactly when its registration was not torn. */
  lemma ResolvedIsEligible(c: Contract, ops: seq<Op>, q: Slot, payload: Artifact -> bool)
    requires AllWellFormed(ops)
    requires Resolve(Run(EMPTY, c, ops), c, q, payload).Some?
    ensures var r := Run(EMPTY, c, ops);
            var a := Resolve(r, c, q, payload).value;
            && Eligible(r, c, q, a) && payload(a) && StoringOp(EMPTY, c, ops, a.id).Some?
            && (HasEvent(r, a.id, Registered) <==> StoringOp(EMPTY, c, ops, a.id).value.Register?)
  {
    hide Run, Inv, StoringOp, CompatibilityDigest;
    var r := Run(EMPTY, c, ops);
    assert Inv(EMPTY) by { EmptyInv(); }
    RunKeepsInv(EMPTY, c, ops);
    RunKeepsEvidence(EMPTY, c, ops);
    ResolvedInState(r, c, q, payload);
    RegisteredExactly(EMPTY, c, ops, Resolve(r, c, q, payload).value.id);
  }

  lemma EmptyInv()
    ensures Inv(EMPTY)
  {
  }

  lemma ResolvedInState(r: Registry, c: Contract, q: Slot, payload: Artifact -> bool)
    requires Inv(r) && Evidenced(r, c) && Resolve(r, c, q, payload).Some?
    ensures Eligible(r, c, q, Resolve(r, c, q, payload).value) && payload(Resolve(r, c, q, payload).value)
  {
    hide CompatibilityDigest, EventOk, ChampionOk;
    var ch := r.champions[KeyOf(q)];
    var a := Resolve(r, c, q, payload).value;
    var es := EventsOf(r.events, a.id);
    EventsOfMembers(r.events, a.id);
    PromotedViaFound(es, ch.promotedVia);
    var e :| e in es && e.kind == Promoted && e.id == ch.promotedVia && e.validation == PromotedVia(es, ch.promotedVia);
    assert e in r.events && EvidenceOk(r, c, e);
    var g :| g in es && g.kind == Approved;
    assert g in r.events && EvidenceOk(r, c, g);
  }

  /** After a terminal event an artifact never resolves again, in any
      continuation and for any slot. */
  lemma TerminalIsForever(r: Registry, c: Contract, ops: seq<Op>, id: string, q: Slot, payload: Artifact -> bool)
    requires Inv(r) && AllWellFormed(ops) && (HasEvent(r, id, Invalidated) || HasEvent(r, id, Retired))
    ensures var a := Resolve(Run(r, c, ops), c, q, payload); a.Some? ==> a.value.id != id
  {
    hide Run, Inv;
    var r' := Run(r, c, ops);
    RunKeepsInv(r, c, ops);
    var e :| e in r.events && e.artifactId == id && Terminal(e.kind);
    assert e in r'.events;
    EventsOfMembers(r'.events, id);
  }

  /** Invalidating or retiring a registered artifact does record that event. */
  lemma TerminateRecords(r: Registry, c: Contract, op: Op)
    requires Inv(r) && op.Terminate? && Terminal(op.kind) && op.id in r.artifacts
    ensures HasEvent(Step(r, c, op), op.id, op.kind)
  {
    var e := OpEvent(op).value;
    InsertedEvent(r.events, e);
    var x :| x in InsertEvent(r.events, e) && x.id == e.id;
    if x in r.events { assert EventOk(r, x); }
  }

  // ----- which steps can change a resolution

  predicate NoneTerminal(es: seq<Event>) { forall e :: e in es ==> !Terminal(e.kind) }

  /** The resolution of a slot depends only on its champion row and, behind it,
      on one artifact, its events, and the validation of its promotion. */
  lemma SameResolution(r: Registry, r': Registry, c: Contract, q: Slot, payload: Artifact -> bool)
    requires Inv(r) && Grows(r, r')
    requires KeyOf(q) in r.champions <==> KeyOf(q) in r'.champions
    requires KeyOf(q) in r.champions ==> r'.champions[KeyOf(q)] == r.champions[KeyOf(q)]
    requires KeyOf(q) in r.champions ==> SameStanding(r, r', r.champions[KeyOf(q)].artifactId)
    ensures Resolve(r', c, q, payload) == Resolve(r, c, q, payload)
  {
    hide Join, TerminallyIneligible, HasApproved, PromotedVia, SameStanding, EventsOf, EventOk, CompatibilityDigest;
    if KeyOf(q) in r.champions {
      assert ChampionOk(r, KeyOf(q));
      SameChampionStanding(r, r', KeyOf(q));
    }
  }

  ghost predicate SameStanding(r: Registry, r': Registry, id: string) {
    exists more: seq<Event> :: EventsOf(r'.events, id) == EventsOf(r.events, id) + more && NoneTerminal(more)
  }

  lemma SameEvents(r: Registry, r': Registry, id: string, more: seq<Event>)
    requires EventsOf(r'.events, id) == EventsOf(r.events, id) + more && NoneTerminal(more)
    ensures SameStanding(r, r', id)
  {
  }

  lemma SameChampionStanding(r: Registry, r': Registry, key: ChampionKey)
    requires Inv(r) && key in r.champions && SameStanding(r, r', r.champions[key].artifactId)
    ensures var ch := r.champions[key];
            var es, es' := EventsOf(r.events, ch.artifactId), EventsOf(r'.events, ch.artifactId);
            && TerminallyIneligible(es') == TerminallyIneligible(es)
            && (!TerminallyIneligible(es) ==> HasApproved(es) && HasApproved(es'))
            && PromotedVia(es', ch.promotedVia) == PromotedVia(es, ch.promotedVia)
            && (PromotedVia(es, ch.promotedVia).Some? ==> PromotedVia(es, ch.promotedVia).value in r.validations)
  {
    assert ChampionOk(r, key);
    var ch := r.champions[key];
    var es, es' := EventsOf(r.events, ch.artifactId), EventsOf(r'.events, ch.artifactId);
    var more: seq<Event> :| es' == es + more && NoneTerminal(more);
    EventsOfMembers(r.events, ch.artifactId);
    var e :| e in r.events && e.id == ch.promotedVia && e.kind == Promoted && e.artifactId == ch.artifactId;
    PromotedViaMore(es, more, ch.promotedVia);
    PromotedViaFound(es, ch.promotedVia);
    var a :| a in r.events && a.artifactId == ch.artifactId && a.kind == Approved;
    StandingMore(es, more, a);
  }

  lemma StandingMore(es: seq<Event>, more: seq<Event>, a: Event)
    requires a in es && a.kind == Approved && NoneTerminal(more)
    ensures TerminallyIneligible(es + more) == TerminallyIneligible(es)
    ensures !TerminallyIneligible(es) ==> HasApproved(es) && HasApproved(es + more)
  {
    if TerminallyIneligible(es) {
      var t :| t in es && Terminal(t.kind);
      assert t in es + more;
    } else {
      assert a in es + more;
    }
  }

  lemma EventsWithOp(r: Registry, c: Contract, op: Op, id: string)
    requires WellFormed(op)
    ensures var es := EventsOf(r.events, id);
            EventsOf(Step(r, c, op).events, id) == es
            || (OpEvent(op).Some? && OpEvent(op).value.artifactId == id
                && EventsOf(Step(r, c, op).events, id) == es + [OpEvent(op).value])
  {
    StepEvents(r, c, op);
    if OpEvent(op).Some? { EventsOfInsert(r.events, OpEvent(op).value, id); }
  }

  /** Registering, recording a validation and approving leave every resolution
      unchanged; so does a promotion that stops before its champion row. */
  lemma OnlyPromotionOrTerminationChangesResolution(r: Registry, c: Contract, op: Op, q: Slot, payload: Artifact -> bool)
    requires Inv(r) && WellFormed(op) && !op.Promote? && !op.Terminate?
    ensures Resolve(Step(r, c, op), c, q, payload) == Resolve(r, c, q, payload)
  {
    hide Inv, Resolve, Grows, Check, EventsOf, CompatibilityDigest, SameStanding;
    var r' := Step(r, c, op);
    StepGrows(r, c, op);
    if KeyOf(q) in r.champions {
      var id := r.champions[KeyOf(q)].artifactId;
      EventsWithOp(r, c, op, id);
      var es, es' := EventsOf(r.events, id), EventsOf(r'.events, id);
      SameEvents(r, r', id, if es' == es then [] else [OpEvent(op).value]);
    }
    SameResolution(r, r', c, q, payload);
  }

  /** Terminating an artifact leaves the resolution of a slot alone exactly when
      that was nothing or another artifact. */
  lemma TerminationIsLocal(r: Registry, c: Contract, op: Op, q: Slot, payload: Artifact -> bool)
    requires Inv(r) && WellFormed(op) && op.Terminate?
    ensures Resolve(Step(r, c, op), c, q, payload) == Resolve(r, c, q, payload)
            <==> Resolve(r, c, q, payload) == None || Resolve(r, c, q, payload).value.id != op.id
  {
    hide Step, Resolve, Inv;
    if Resolve(r, c, q, payload).Some? { ResolvedIsChampion(r, c, q, payload); }
    if KeyOf(q) in r.champions && r.champions[KeyOf(q)].artifactId == op.id {
      TerminatedChampion(r, c, op, q, payload);
    } else {
      OtherChampion(r, c, op, q, payload);
    }
  }

  lemma ResolvedIsChampion(r: Registry, c: Contract, q: Slot, payload: Artifact -> bool)
    requires Inv(r) && Resolve(r, c, q, payload).Some?
    ensures KeyOf(q) in r.champions && r.champions[KeyOf(q)].artifactId == Resolve(r, c, q, payload).value.id
  {
    hide CompatibilityDigest, EventOk, ChampionOk;
  }

  /** Its slots resolve to nothing from then on. */
  lemma TerminatedChampion(r: Registry, c: Contract, op: Op, q: Slot, payload: Artifact -> bool)
    requires Inv(r) && WellFormed(op) && op.Terminate?
    requires KeyOf(q) in r.champions && r.champions[KeyOf(q)].artifactId == op.id
    ensures Resolve(Step(r, c, op), c, q, payload) == None
  {
    hide Resolve, CompatibilityDigest, EventOk;
    assert ChampionOk(r, KeyOf(q));
    var r' := Step(r, c, op);
    TerminateRecords(r, c, op);
    StepKeepsInv(r, c, op);
    assert r'.champions == r.champions;
    assert Run(r', c, []) == r';
    TerminalIsForever(r', c, [], op.id, q, payload);
    if Resolve(r', c, q, payload).Some? { ResolvedIsChampion(r', c, q, payload); }
  }

  lemma OtherChampion(r: Registry, c: Contract, op: Op, q: Slot, payload: Artifact -> bool)
    requires Inv(r) && WellFormed(op) && op.Terminate?
    requires KeyOf(q) in r.champions ==> r.champions[KeyOf(q)].artifactId != op.id
    ensures Resolve(Step(r, c, op), c, q, payload) == Resolve(r, c, q, payload)
  {
    var r' := Step(r, c, op);
    StepGrows(r, c, op);
    if KeyOf(q) in r.champions {
      var id := r.champions[KeyOf(q)].artifactId;
      EventsWithOp(r, c, op, id);
      SameEvents(r, r', id, []);
    }
    SameResolution(r, r', c, q, payload);
  }

  /** An accepted promotion leaves the resolution of any other slot alone exactly
      when that slot resolved to nothing or its champion key is a different one. */
  lemma PromotionIsLocal(r: Registry, c: Contract, op: Op, q: Slot, payload: Artifact -> bool)
    requires Inv(r) && op.Promote? && Check(r, c, op) == Done
    requires q != r.artifacts[op.id].slot
    ensures Resolve(Step(r, c, op), c, q, payload) == Resolve(r, c, q, payload)
            <==> Resolve(r, c, q, payload) == None || KeyOf(q) != KeyOf(r.artifacts[op.id].slot)
  {
    hide EventsOf, CompatibilityDigest, SameStanding, EventOk, TerminallyIneligible, HasApproved, PromotedVia;
    var r' := Step(r, c, op);
    var s := r.artifacts[op.id].slot;
    StepGrows(r, c, op);
    if KeyOf(q) != KeyOf(s) {
      if KeyOf(q) in r.champions {
        assert ChampionOk(r, KeyOf(q));
        var id := r.champions[KeyOf(q)].artifactId;
        assert id != op.id;
        EventsWithOp(r, c, op, id);
        SameEvents(r, r', id, []);
      }
      SameResolution(r, r', c, q, payload);
    } else {
      assert Resolve(r', c, q, payload) == None;
    }
  }

  // ----- when two slots share a champion key

  predicate BarFree(s: string) { '|' !in s }

  predicate SlotBarFree(s: Slot) { AllBarFree(DigestParts(s)) }

  lemma FirstBar(a: string, s: string)
    requires BarFree(a)
    ensures (a + "|" + s)[|a|] == '|' && (a + "|" + s)[..|a|] == a && (a + "|" + s)[|a| + 1..] == s
    ensures forall i :: 0 <= i < |a| ==> (a + "|" + s)[i] != '|'
  {
    forall i | 0 <= i < |a| ensures (a + "|" + s)[i] != '|' { assert a[i] in a; }
  }

  /** The first bar of a text splits it in one way only. */
  lemma SplitAtBar(a: string, s: string, b: string, t: string)
    requires BarFree(a) && BarFree(b) && a + "|" + s == b + "|" + t
    ensures a == b && s == t
  {
    FirstBar(a, s);
    FirstBar(b, t);
  }

  /** Joining is injective on equally long lists of bar-free parts. */
  lemma {:induction false} JoinInjective(p: seq<string>, q: seq<string>)
    requires |p| == |q| && Join(p) == Join(q)
    requires forall i :: 0 <= i < |p| ==> BarFree(p[i]) && BarFree(q[i])
    ensures p == q
  {
    if |p| > 1 {
      SplitAtBar(p[0], Join(p[1..]), q[0], Join(q[1..]));
      JoinInjective(p[1..], q[1..]);
      assert p == [p[0]] + p[1..] && q == [q[0]] + q[1..];
    }
  }

  function Bars(s: string): nat { if s == "" then 0 else (if s[0] == '|' then 1 else 0) + Bars(s[1..]) }

  function AllBars(parts: seq<string>): nat { if parts == [] then 0 else Bars(parts[0]) + AllBars(parts[1..]) }

  lemma {:induction false} BarsOfConcat(a: string, b: string)
    ensures Bars(a + b) == Bars(a) + Bars(b)
  {
    if a == "" {
      assert a + b == b;
    } else {
      BarsOfConcat(a[1..], b);
      assert (a + b)[1..] == a[1..] + b;
    }
  }

  lemma {:induction false} BarFreeCount(s: string)
    ensures BarFree(s) <==> Bars(s) == 0
  {
    if s != "" {
      BarFreeCount(s[1..]);
      assert s == [s[0]] + s[1..];
    }
  }

  lemma {:induction false} BarsOfJoin(parts: seq<string>)
    requires parts != []
    ensures Bars(Join(parts)) == |parts| - 1 + AllBars(parts)
  {
    if |parts| == 1 {
      assert AllBars(parts[1..]) == 0;
    } else {
      var rest := Join(parts[1..]);
      BarsOfJoin(parts[1..]);
      BarsOfConcat(parts[0] + "|", rest);
      BarsOfConcat(parts[0], "|");
      assert "|"[1..] == "";
    }
  }

  predicate AllBarFree(parts: seq<string>) { forall i :: 0 <= i < |parts| ==> BarFree(parts[i]) }

  lemma {:induction false} AllBarFreeCount(parts: seq<string>)
    ensures AllBarFree(parts) <==> AllBars(parts) == 0
  {
    if parts != [] {
      BarFreeCount(parts[0]);
      AllBarFreeCount(parts[1..]);
      assert AllBarFree(parts) <==> BarFree(parts[0]) && AllBarFree(parts[1..]) by {
        forall i | 0 < i < |parts| ensures parts[i] == parts[1..][i - 1] {}
      }
    }
  }

  /** The bars of equal joins are equally many, so one bar-free list settles it. */
  lemma JoinOfBarFree(p: seq<string>, q: seq<string>)
    requires |p| == |q| > 0 && AllBarFree(p) && Join(p) == Join(q)
    ensures p == q
  {
    AllBarFreeCount(p);
    AllBarFreeCount(q);
    BarsOfJoin(p);
    BarsOfJoin(q);
    JoinInjective(p, q);
  }

  lemma PartsIdentify(s: Slot, q: Slot)
    requires DigestParts(s) == DigestParts(q)
    ensures s == q
  {
    var p, p' := DigestParts(s), DigestParts(q);
    assert p[1] == p'[1] && p[2] == p'[2] && p[3] == p'[3] && p[4] == p'[4] && p[5] == p'[5] && p[6] == p'[6];
    assert p[7] == p'[7] && p[8] == p'[8];
    assert ProfileName(s.profile)[0] == ProfileName(q.profile)[0];
  }

  /** A slot without a bar in any field shares its champion key with no other. */
  lemma BarFreeSlotsAreApart(s: Slot, q: Slot)
    requires SlotBarFree(s)
    ensures KeyOf(s) == KeyOf(q) <==> s == q
  {
    if KeyOf(s) == KeyOf(q) {
      JoinOfBarFree(DigestParts(s), DigestParts(q));
      PartsIdentify(s, q);
    }
  }

  /** Slots of different model profiles never share a key, whatever their versions
      hold. */
  lemma ProfilesAreApart(s: Slot, q: Slot)
    requires s.profile != q.profile
    ensures KeyOf(s) != KeyOf(q)
  {
    var p, p' := DigestParts(s), DigestParts(q);
    SplitTwice(p[0], p[1], p[2..], p);
    SplitTwice(p'[0], p'[1], p'[2..], p');
    NamesBarFree(s.profile);
    NamesBarFree(q.profile);
    assert ProfileName(s.profile)[0] != ProfileName(q.profile)[0];
    if Join(p) == Join(p') {
      SplitAtBar(p[0], p[1] + "|" + Join(p[2..]), p'[0], p'[1] + "|" + Join(p'[2..]));
      SplitAtBar(p[1], Join(p[2..]), p'[1], Join(p'[2..]));
      assert false;
    }
  }

  lemma NamesBarFree(m: ModelProfile)
    ensures BarFree(ProfileName(m)) && BarFree("calibration_compatibility_digest/v2")
  {
  }

  lemma SplitTwice(a: string, b: string, rest: seq<string>, parts: seq<string>)
    requires parts == [a, b] + rest && rest != []
    ensures Join(parts) == a + "|" + (b + "|" + Join(rest))
  {
    assert parts[1..] == [b] + rest && parts[1..][1..] == rest;
  }

  /** Promoting for one model profile never affects what another resolves to. */
  lemma PromotionKeepsOtherProfiles(r: Registry, c: Contract, op: Op, q: Slot, payload: Artifact -> bool)
    requires Inv(r) && op.Promote? && Check(r, c, op) == Done && q.profile != r.artifacts[op.id].slot.profile
    ensures Resolve(Step(r, c, op), c, q, payload) == Resolve(r, c, q, payload)
  {
    hide Step, Resolve, Inv, KeyOf;
    ProfilesAreApart(r.artifacts[op.id].slot, q);
    PromotionIsLocal(r, c, op, q, payload);
  }

  lemma {:induction false} JoinAfter(before: seq<string>, u: seq<string>, v: seq<string>)
    requires u != [] && v != [] && Join(u) == Join(v)
    ensures Join(before + u) == Join(before + v)
  {
    if before == [] {
      assert before + u == u && before + v == v;
    } else {
      JoinAfter(before[1..], u, v);
      assert (before + u)[1..] == before[1..] + u && (before + v)[1..] == before[1..] + v;
    }
  }

  lemma BarMoves(a: string, b: string, c: string, rest: seq<string>)
    requires rest != []
    ensures Join([a + "|" + b, c] + rest) == Join([a, b + "|" + c] + rest)
  {
    var u, v := [a + "|" + b, c] + rest, [a, b + "|" + c] + rest;
    assert u[1..] == [c] + rest && v[1..] == [b + "|" + c] + rest;
    assert u[1..][1..] == rest && v[1..][1..] == rest;
    assert Join(u) == a + "|" + b + "|" + (c + "|" + Join(rest));
    assert Join(v) == a + "|" + (b + "|" + c + "|" + Join(rest));
  }

  /** The version fields, the ones that hold free text. */
  predicate VersionsBarFree(s: Slot) {
    && BarFree(s.baseModel) && BarFree(s.simulationConfig) && BarFree(s.featureContract)
    && BarFree(s.propContract) && BarFree(s.calibrationContract)
  }

  lemma BarSplits(s: string) returns (a: string, b: string)
    requires !BarFree(s)
    ensures s == a + "|" + b && |a| < |s| && |b| < |s|
  {
    var i :| 0 <= i < |s| && s[i] == '|';
    a, b := s[..i], s[i + 1..];
    assert s == s[..i] + [s[i]] + s[i + 1..];
  }

  lemma BarMovesIn(before: seq<string>, a: string, b: string, c: string, rest: seq<string>)
    requires rest != []
    ensures Join(before + ([a + "|" + b, c] + rest)) == Join(before + ([a, b + "|" + c] + rest))
  {
    BarMoves(a, b, c, rest);
    JoinAfter(before, [a + "|" + b, c] + rest, [a, b + "|" + c] + rest);
  }

  lemma ModelBarsCollide(s: Slot) returns (q: Slot)
    requires !BarFree(s.baseModel) || !BarFree(s.simulationConfig)
    ensures q != s && q.profile == s.profile && KeyOf(q) == KeyOf(s)
  {
    hide Join, BarFree;
    var p := DigestParts(s);
    if !BarFree(s.baseModel) {
      var a, b := BarSplits(s.baseModel);
      q := s.(baseModel := a, simulationConfig := b + "|" + s.simulationConfig);
      BarMovesIn(p[..2], a, b, s.simulationConfig, p[4..]);
      assert p == p[..2] + ([a + "|" + b, s.simulationConfig] + p[4..]);
      assert DigestParts(q) == p[..2] + ([a, b + "|" + s.simulationConfig] + p[4..]);
      assert |q.baseModel| < |s.baseModel|;
    } else {
      var a, b := BarSplits(s.simulationConfig);
      q := s.(baseModel := s.baseModel + "|" + a, simulationConfig := b);
      BarMovesIn(p[..2], s.baseModel, a, b, p[4..]);
      assert p == p[..2] + ([s.baseModel, a + "|" + b] + p[4..]);
      assert DigestParts(q) == p[..2] + ([s.baseModel + "|" + a, b] + p[4..]);
      assert |q.simulationConfig| < |s.simulationConfig|;
    }
  }

  lemma ContractBarsCollide(s: Slot) returns (q: Slot)
    requires !BarFree(s.featureContract) || !BarFree(s.propContract)
    ensures q != s && q.profile == s.profile && KeyOf(q) == KeyOf(s)
  {
    hide Join, BarFree;
    var p := DigestParts(s);
    if !BarFree(s.featureContract) {
      var a, b := BarSplits(s.featureContract);
      q := s.(featureContract := a, propContract := b + "|" + s.propContract);
      BarMovesIn(p[..4], a, b, s.propContract, p[6..]);
      assert p == p[..4] + ([a + "|" + b, s.propContract] + p[6..]);
      assert DigestParts(q) == p[..4] + ([a, b + "|" + s.propContract] + p[6..]);
      assert |q.featureContract| < |s.featureContract|;
    } else {
      var a, b := BarSplits(s.propContract);
      q := s.(featureContract := s.featureContract + "|" + a, propContract := b);
      BarMovesIn(p[..4], s.featureContract, a, b, p[6..]);
      assert p == p[..4] + ([s.featureContract, a + "|" + b] + p[6..]);
      assert DigestParts(q) == p[..4] + ([s.featureContract + "|" + a, b] + p[6..]);
      assert |q.propContract| < |s.propContract|;
    }
  }

  /** A slot with a bar in one of its five versions shares its key with the slot
      that has it moved to a neighbouring version. */
  lemma BarsCollide(s: Slot) returns (q: Slot)
    requires !VersionsBarFree(s)
    ensures q != s && q.profile == s.profile && KeyOf(q) == KeyOf(s)
  {
    hide Join, BarFree, KeyOf;
    if !BarFree(s.baseModel) || !BarFree(s.simulationConfig) {
      q := ModelBarsCollide(s);
    } else if !BarFree(s.featureContract) || !BarFree(s.propContract) {
      q := ContractBarsCollide(s);
    } else {
      q := LastBarsCollide(s);
    }
  }

  lemma LastBarsCollide(s: Slot) returns (q: Slot)
    requires !BarFree(s.calibrationContract)
    ensures q != s && q.profile == s.profile && KeyOf(q) == KeyOf(s)
  {
    hide Join, BarFree;
    var p := DigestParts(s);
    var a, b := BarSplits(s.calibrationContract);
    q := s.(propContract := s.propContract + "|" + a, calibrationContract := b);
    BarMovesIn(p[..5], s.propContract, a, b, p[7..]);
    assert p == p[..5] + ([s.propContract, a + "|" + b] + p[7..]);
    assert DigestParts(q) == p[..5] + ([s.propContract + "|" + a, b] + p[7..]);
    assert |q.calibrationContract| < |s.calibrationContract|;
  }

  /** With a scope and a checkpoint from their closed lists, another slot shares
      the champion key exactly when one of the five version strings holds a bar. */
  lemma KeyIsSharedExactly(s: Slot)
    requires BarFree(s.scopeType) && BarFree(s.checkpointScope)
    ensures (exists q :: q != s && KeyOf(q) == KeyOf(s)) <==> !VersionsBarFree(s)
  {
    if VersionsBarFree(s) {
      NamesBarFree(s.profile);
      assert SlotBarFree(s);
      forall q | KeyOf(q) == KeyOf(s) ensures q == s { BarFreeSlotsAreApart(s, q); }
    } else {
      var q := BarsCollide(s);
    }
  }
}

/** When operations are accepted and when a champion resolves, in terms of the
    stored rows and events alone. */
module RegistryChampions {
  import opened Options
  import opened RegistrySpec
  import opened RegistryTheorems

  ghost predicate HasTerminal(r: Registry, id: string) { HasEvent(r, id, Invalidated) || HasEvent(r, id, Retired) }

  lemma TerminalEvents(r: Registry, id: string)
    ensures TerminallyIneligible(EventsOf(r.events, id)) <==> HasTerminal(r, id)
  {
    EventsOfMembers(r.events, id);
    if e :| e in EventsOf(r.events, id) && Terminal(e.kind) { assert e in r.events; }
  }

  lemma ApprovedEvents(r: Registry, id: string)
    requires !HasTerminal(r, id)
    ensures HasApproved(EventsOf(r.events, id)) <==> HasEvent(r, id, Approved)
  {
    TerminalEvents(r, id);
    EventsOfMembers(r.events, id);
    if e :| e in r.events && e.artifactId == id && e.kind == Approved { assert e in EventsOf(r.events, id); }
  }

  // ----- which operations are accepted

  /** A stored validation of the artifact that passes every one of the gates. */
  predicate Passing(r: Registry, id: string, via: ValidationId, gates: set<Gate>) {
    && via in r.validations && r.validations[via].artifactId == id
    && forall g :: g in gates ==> g in r.validations[via].passed
  }

  /** An operation is accepted exactly when: a registration is new and hashes to
      its content; a validation belongs to a stored artifact and keeps its labels
      apart; an approval or promotion is of a stored artifact without a terminal
      event, by a validation that passes its gates, and a promotion comes after an
      approval; a termination is of a stored artifact. */
  lemma AcceptedExactly(r: Registry, c: Contract, op: Op)
    ensures Check(r, c, op) == Done <==>
              match op
              case Register(a) => a.id !in r.artifacts && a.contentSha == ContentHash(a.id, a.slot, a.body)
              case RegisterTorn(a) => a.id !in r.artifacts && a.contentSha == ContentHash(a.id, a.slot, a.body)
              case RecordValidation(v, disjointLabels) => v.artifactId in r.artifacts && disjointLabels
              case Approve(id, via, _, _, _) =>
                id in r.artifacts && !HasTerminal(r, id) && Passing(r, id, via, c.approvalGates)
              case Promote(id, via, _, _, _) =>
                id in r.artifacts && !HasTerminal(r, id) && HasEvent(r, id, Approved) && Passing(r, id, via, c.promotionGates)
              case PromoteTorn(id, via, _, _, _) =>
                id in r.artifacts && !HasTerminal(r, id) && HasEvent(r, id, Approved) && Passing(r, id, via, c.promotionGates)
              case Terminate(id, _, _, _, _) => id in r.artifacts
  {
    hide HasApproved, TerminallyIneligible, HasEvent, EventsOf;
    if op.Approve? || op.Promote? || op.PromoteTorn? {
      TerminalEvents(r, op.id);
      if !HasTerminal(r, op.id) { ApprovedEvents(r, op.id); }
    }
  }

  /** The event is stored as given, unless one with the same id was stored before. */
  predicate Recorded(r: Registry, r': Registry, e: Event) {
    e in r'.events || exists x :: x in r.events && x.id == e.id && x in r'.events
  }

  /** What an accepted operation leaves: the rows it was given and its event, the
      champion of its slot if it is a promotion, and nothing else changed. */
  lemma AcceptedLeaves(r: Registry, c: Contract, op: Op)
    requires Inv(r) && WellFormed(op) && Check(r, c, op) == Done
    ensures var r' := Step(r, c, op);
            match op
            case Register(a) =>
              && r'.artifacts == r.artifacts[a.id := a] && r'.validations == r.validations && r'.champions == r.champions
              && HasEvent(r', a.id, Registered)
              && Recorded(r, r', Event(EventId(a.id, Registered, None, "", a.createdAt), a.id, Registered, None, "", a.createdAt))
            case RegisterTorn(a) => r' == r.(artifacts := r.artifacts[a.id := a])
            case RecordValidation(v, _) => v.id in r'.validations && r' == r.(validations := r'.validations)
            case Approve(id, via, reason, detail, at) =>
              && HasEvent(r', id, Approved) && r' == r.(events := r'.events)
              && Recorded(r, r', Event(EventId(id, Approved, Some(via), reason, at), id, Approved, Some(via), detail, at))
            case Promote(id, via, reason, detail, at) =>
              && HasEvent(r', id, Promoted) && r'.artifacts == r.artifacts && r'.validations == r.validations
              && Recorded(r, r', Event(EventId(id, Promoted, Some(via), reason, at), id, Promoted, Some(via), detail, at))
              && var key := KeyOf(r.artifacts[id].slot);
                 r'.champions == r.champions[key := Champion(key, id, EventId(id, Promoted, Some(via), reason, at), at)]
            case PromoteTorn(id, via, reason, detail, at) =>
              && HasEvent(r', id, Promoted) && r' == r.(events := r'.events)
              && Recorded(r, r', Event(EventId(id, Promoted, Some(via), reason, at), id, Promoted, Some(via), detail, at))
            case Terminate(id, kind, reason, detail, at) =>
              && HasEvent(r', id, kind) && r' == r.(events := r'.events)
              && Recorded(r, r', Event(EventId(id, kind, None, reason, at), id, kind, None, detail, at))
  {
    hide EventsOf, ChampionOk, HasApproved, TerminallyIneligible, Check;
    var r' := Step(r, c, op);
    if OpEvent(op).Some? {
      var e := OpEvent(op).value;
      StepEvents(r, c, op);
      StepGrows(r, c, op);
      InsertedEvent(r.events, e);
      var x :| x in r'.events && x.id == e.id;
      if x in r.events { assert EventOk(r, x); }
    }
  }

  // ----- when a champion resolves

  /** The champion row under the slot's key names the artifact, which is stored
      with exactly that slot, was never invalidated or retired, and whose payload
      verifies. */
  ghost predicate Installed(r: Registry, c: Contract, q: Slot, a: Artifact, payload: Artifact -> bool) {
    && q.scopeType in c.scopeTypes && q.checkpointScope in c.checkpointScopes
    && KeyOf(q) in r.champions && r.champions[KeyOf(q)].artifactId == a.id
    && a.id in r.artifacts && r.artifacts[a.id] == a && a.slot == q
    && !HasTerminal(r, a.id) && payload(a)
  }

  lemma InstalledResolves(r: Registry, c: Contract, q: Slot, a: Artifact, payload: Artifact -> bool)
    requires Inv(r) && Evidenced(r, c) && Installed(r, c, q, a, payload)
    ensures Resolve(r, c, q, payload) == Some(a)
  {
    hide CompatibilityDigest, EventOk, Passing, EventsOf, TerminallyIneligible, HasApproved, PromotedVia;
    assert ChampionOk(r, KeyOf(q));
    TerminalEvents(r, a.id);
    ApprovedEvents(r, a.id);
    PromotionBehind(r, c, KeyOf(q));
  }

  /** The event a champion row names is a promotion by a passing validation. */
  lemma PromotionBehind(r: Registry, c: Contract, key: ChampionKey)
    requires Inv(r) && Evidenced(r, c) && key in r.champions
    ensures var ch := r.champions[key];
            var via := PromotedVia(EventsOf(r.events, ch.artifactId), ch.promotedVia);
            && via.Some? && via.value in r.validations && r.validations[via.value].artifactId == ch.artifactId
            && c.promotionGates <= r.validations[via.value].passed
  {
    hide EventOk;
    assert ChampionOk(r, key);
    var ch := r.champions[key];
    var es := EventsOf(r.events, ch.artifactId);
    EventsOfMembers(r.events, ch.artifactId);
    var e :| e in r.events && e.id == ch.promotedVia && e.kind == Promoted && e.artifactId == ch.artifactId;
    assert e in es;
    PromotedViaMore(es, [], ch.promotedVia);
    PromotedIsFound(r, c, es, ch.promotedVia);
    PromotedViaFound(es, ch.promotedVia);
    var f :| f in es && f.kind == Promoted && f.id == ch.promotedVia && f.validation == PromotedVia(es, ch.promotedVia);
    assert f in r.events && EvidenceOk(r, c, f);
  }

  lemma {:induction false} PromotedIsFound(r: Registry, c: Contract, es: seq<Event>, id: EventId)
    requires Evidenced(r, c) && forall e :: e in es ==> e in r.events
    requires exists e :: e in es && e.kind == Promoted && e.id == id
    ensures PromotedVia(es, id).Some?
  {
    if es[0].kind == Promoted && es[0].id == id {
      assert EvidenceOk(r, c, es[0]);
    } else {
      assert es == [es[0]] + es[1..];
      PromotedIsFound(r, c, es[1..], id);
    }
  }

  /** In every reachable registry a slot resolves to an artifact exactly when that
      is installed for it. */
  lemma ResolvesExactly(c: Contract, ops: seq<Op>, q: Slot, a: Artifact, payload: Artifact -> bool)
    requires AllWellFormed(ops)
    ensures Resolve(Run(EMPTY, c, ops), c, q, payload) == Some(a) <==> Installed(Run(EMPTY, c, ops), c, q, a, payload)
  {
    hide Run, Resolve, Inv, Evidenced;
    Reachable(c, ops);
    ResolvesInState(Run(EMPTY, c, ops), c, q, a, payload);
  }

  lemma Reachable(c: Contract, ops: seq<Op>)
    requires AllWellFormed(ops)
    ensures Inv(Run(EMPTY, c, ops)) && Evidenced(Run(EMPTY, c, ops), c)
  {
    hide Run;
    EmptyInv();
    RunKeepsInv(EMPTY, c, ops);
    RunKeepsEvidence(EMPTY, c, ops);
  }

  lemma ResolvesInState(r: Registry, c: Contract, q: Slot, a: Artifact, payload: Artifact -> bool)
    requires Inv(r) && Evidenced(r, c)
    ensures Resolve(r, c, q, payload) == Some(a) <==> Installed(r, c, q, a, payload)
  {
    hide Inv, Evidenced, CompatibilityDigest;
    if Resolve(r, c, q, payload) == Some(a) { ResolvedInState(r, c, q, payload); }
    if Installed(r, c, q, a, payload) { InstalledResolves(r, c, q, a, payload); }
  }

  // ----- how long a promoted champion resolves

  predicate Terminates(ops: seq<Op>, id: string) {
    exists i :: 0 <= i < |ops| && ops[i].Terminate? && ops[i].id == id
  }

  /** The run accepts a promotion of another artifact under the key. */
  ghost predicate Displaced(r: Registry, c: Contract, ops: seq<Op>, key: ChampionKey, id: string)
    decreases |ops|
  {
    ops != [] && (Displaces(r, c, ops[0], key, id) || Displaced(Step(r, c, ops[0]), c, ops[1..], key, id))
  }

  ghost predicate Displaces(r: Registry, c: Contract, op: Op, key: ChampionKey, id: string) {
    op.Promote? && Check(r, c, op) == Done && op.id != id && KeyOf(r.artifacts[op.id].slot) == key
  }

  /** The champion row under the key stays with the artifact. */
  lemma ChampionStays(r: Registry, c: Contract, op: Op, key: ChampionKey, id: string)
    requires key in r.champions && r.champions[key].artifactId == id && !Displaces(r, c, op, key, id)
    ensures key in Step(r, c, op).champions && Step(r, c, op).champions[key].artifactId == id
  {
    hide Check;
  }

  /** A step records a terminal event exactly by terminating a stored artifact. */
  lemma TerminalStep(r: Registry, c: Contract, op: Op, id: string)
    requires Inv(r) && WellFormed(op) && id in r.artifacts
    ensures HasTerminal(Step(r, c, op), id) <==> HasTerminal(r, id) || (op.Terminate? && op.id == id)
  {
    hide Step, Inv, EventsOf, HasApproved, TerminallyIneligible;
    StepGrows(r, c, op);
    StepEvents(r, c, op);
    if OpEvent(op).Some? { InsertedEvent(r.events, OpEvent(op).value); }
    if op.Terminate? && op.id == id { TerminateRecords(r, c, op); }
    if HasTerminal(r, id) {
      var e :| e in r.events && e.artifactId == id && (e.kind == Invalidated || e.kind == Retired);
      assert e in Step(r, c, op).events;
    }
  }

  lemma {:induction false} InstalledOverRun(r: Registry, c: Contract, ops: seq<Op>, key: ChampionKey, a: Artifact)
    requires Inv(r) && AllWellFormed(ops) && !Displaced(r, c, ops, key, a.id)
    requires key in r.champions && r.champions[key].artifactId == a.id && a.id in r.artifacts && r.artifacts[a.id] == a
    ensures var r' := Run(r, c, ops);
            && key in r'.champions && r'.champions[key].artifactId == a.id && a.id in r'.artifacts && r'.artifacts[a.id] == a
            && (HasTerminal(r', a.id) <==> HasTerminal(r, a.id) || Terminates(ops, a.id))
    decreases |ops|
  {
    hide Step, Inv, HasTerminal, AllWellFormed, WellFormed, Displaces;
    if ops != [] {
      var r' := Step(r, c, ops[0]);
      RestWellFormed(ops);
      StepKeepsInv(r, c, ops[0]);
      StepGrows(r, c, ops[0]);
      ChampionStays(r, c, ops[0], key, a.id);
      TerminalStep(r, c, ops[0], a.id);
      InstalledOverRun(r', c, ops[1..], key, a);
      TerminatesRest(ops, a.id);
    }
  }

  lemma TerminatesRest(ops: seq<Op>, id: string)
    requires ops != []
    ensures Terminates(ops, id) <==> (ops[0].Terminate? && ops[0].id == id) || Terminates(ops[1..], id)
  {
    if Terminates(ops, id) {
      var i :| 0 <= i < |ops| && ops[i].Terminate? && ops[i].id == id;
      if i > 0 { assert ops[1..][i - 1] == ops[i]; }
    }
    if i :| 0 <= i < |ops[1..]| && ops[1..][i].Terminate? && ops[1..][i].id == id { assert ops[i + 1] == ops[1..][i]; }
  }

  /** After an accepted promotion into a supported slot, in every continuation that
      accepts no promotion of another artifact under the same key, the slot
      resolves to the artifact exactly while that is not terminated and its
      payload verifies. */
  lemma PromotedResolvesUntilTerminated(c: Contract, ops: seq<Op>, op: Op, later: seq<Op>, payload: Artifact -> bool)
    requires AllWellFormed(ops) && AllWellFormed(later) && op.Promote? && Check(Run(EMPTY, c, ops), c, op) == Done
    requires var a := Run(EMPTY, c, ops).artifacts[op.id];
             && a.slot.scopeType in c.scopeTypes && a.slot.checkpointScope in c.checkpointScopes
             && !Displaced(Step(Run(EMPTY, c, ops), c, op), c, later, KeyOf(a.slot), a.id)
    ensures var a := Run(EMPTY, c, ops).artifacts[op.id];
            Resolve(Run(Step(Run(EMPTY, c, ops), c, op), c, later), c, a.slot, payload) == Some(a)
            <==> payload(a) && !Terminates(later, a.id)
  {
    hide Run, Resolve, EventsOf, Displaced, ChampionOk, HasTerminal, KeyOf, HasApproved, TerminallyIneligible;
    var r := Run(EMPTY, c, ops);
    var a, r' := r.artifacts[op.id], Step(r, c, op);
    Reachable(c, ops);
    AcceptedExactly(r, c, op);
    AcceptedLeaves(r, c, op);
    StepGrows(r, c, op);
    StepKeepsInv(r, c, op);
    StepKeepsEvidence(r, c, op);
    TerminalStep(r, c, op, a.id);
    InstalledOverRun(r', c, later, KeyOf(a.slot), a);
    RunKeepsInv(r', c, later);
    RunKeepsEvidence(r', c, later);
    ResolvesInState(Run(r', c, later), c, a.slot, a, payload);
  }

  /** A new artifact, taken through its whole life: registered, validated by
      evidence that passes every gate, approved and promoted, it resolves. */
  lemma LifecycleResolves(c: Contract, ops: seq<Op>, a: Artifact, v: Validation, at: int, payload: Artifact -> bool)
    requires AllWellFormed(ops) && a.id !in Run(EMPTY, c, ops).artifacts && v.id !in Run(EMPTY, c, ops).validations
    requires a.contentSha == ContentHash(a.id, a.slot, a.body) && payload(a)
    requires a.slot.scopeType in c.scopeTypes && a.slot.checkpointScope in c.checkpointScopes
    requires v.artifactId == a.id == v.id.artifactId && c.approvalGates <= v.passed && c.promotionGates <= v.passed
    ensures var life := [Register(a), RecordValidation(v, true), Approve(a.id, v.id, "", "", at), Promote(a.id, v.id, "", "", at)];
            Resolve(Run(Run(EMPTY, c, ops), c, life), c, a.slot, payload) == Some(a)
  {
    hide Run, Resolve, EventsOf, ChampionOk, HasEvent, KeyOf, HasApproved, TerminallyIneligible, Inv, Evidenced, Check;
    var r0 := Run(EMPTY, c, ops);
    Reachable(c, ops);
    NoEvents(r0, a.id);
    var op1, op2 := Register(a), RecordValidation(v, true);
    var op3, op4 := Approve(a.id, v.id, "", "", at), Promote(a.id, v.id, "", "", at);
    var r1 := Step(r0, c, op1);
    Accepted(r0, c, op1, a.id);
    var r2 := Step(r1, c, op2);
    Accepted(r1, c, op2, a.id);
    assert v.id in r2.validations && r2.validations[v.id] == v;
    var r3 := Step(r2, c, op3);
    Accepted(r2, c, op3, a.id);
    var r4 := Step(r3, c, op4);
    Accepted(r3, c, op4, a.id);
    RunOfFour(r0, c, op1, op2, op3, op4);
    ResolvesInState(r4, c, a.slot, a, payload);
  }

  lemma NoEvents(r: Registry, id: string)
    requires Inv(r) && id !in r.artifacts
    ensures !HasTerminal(r, id)
  {
    assert forall e :: e in r.events ==> EventOk(r, e);
  }

  /** One accepted step of a life. */
  lemma Accepted(r: Registry, c: Contract, op: Op, id: string)
    requires Inv(r) && Evidenced(r, c) && WellFormed(op) && !HasTerminal(r, id)
    requires match op
             case Register(a) => a.id == id && id !in r.artifacts && a.contentSha == ContentHash(a.id, a.slot, a.body)
             case RecordValidation(v, disjointLabels) => v.artifactId == id && id in r.artifacts && disjointLabels
             case Approve(i, via, _, _, _) => i == id && id in r.artifacts && Passing(r, id, via, c.approvalGates)
             case Promote(i, via, _, _, _) =>
               i == id && id in r.artifacts && HasEvent(r, id, Approved) && Passing(r, id, via, c.promotionGates)
             case _ => false
    ensures var r' := Step(r, c, op);
            && Inv(r') && Evidenced(r', c) && Grows(r, r') && !HasTerminal(r', id) && id in r'.artifacts
            && match op
               case Register(a) => r'.artifacts[id] == a && r'.validations == r.validations
               case RecordValidation(v, _) => v.id in r'.validations && (v.id !in r.validations ==> r'.validations[v.id] == v)
               case Approve(_, _, _, _, _) => HasEvent(r', id, Approved) && r'.validations == r.validations
               case _ => KeyOf(r.artifacts[id].slot) in r'.champions && r'.champions[KeyOf(r.artifacts[id].slot)].artifactId == id
  {
    hide EventsOf, ChampionOk, HasApproved, TerminallyIneligible, Inv, Evidenced, HasEvent, KeyOf, InsertEvent, EventOk;
    AcceptedExactly(r, c, op);
    AcceptedLeaves(r, c, op);
    StepGrows(r, c, op);
    StepKeepsInv(r, c, op);
    StepKeepsEvidence(r, c, op);
    StaysOpen(r, c, op, id);
  }

  lemma StaysOpen(r: Registry, c: Contract, op: Op, id: string)
    requires Inv(r) && WellFormed(op) && !op.Terminate? && !HasTerminal(r, id)
    ensures !HasTerminal(Step(r, c, op), id)
  {
    hide Step, Inv, Check;
    StepEvents(r, c, op);
    if OpEvent(op).Some? { InsertedEvent(r.events, OpEvent(op).value); }
  }

  lemma RunOfFour(r: Registry, c: Contract, a: Op, b: Op, d: Op, e: Op)
    ensures Run(r, c, [a, b, d, e]) == Step(Step(Step(Step(r, c, a), c, b), c, d), c, e)
  {
    hide Step;
    assert [a, b, d, e][1..] == [b, d, e] && [b, d, e][1..] == [d, e] && [d, e][1..] == [e] && [e][1..] == [];
    var ra := Step(r, c, a);
    var rb := Step(ra, c, b);
    var rd := Step(rb, c, d);
    assert Run(r, c, [a, b, d, e]) == Run(ra, c, [b, d, e]) == Run(rb, c, [d, e]);
    assert Run(rb, c, [d, e]) == Run(rd, c, [e]) == Run(Step(rd, c, e), c, []);
  }
}

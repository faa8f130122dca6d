/** Versioned completed-game outcomes: the point-in-time selections over them, and
    what appending provider corrections as new immutable versions is to give. */
module OutcomeVersions {
  import opened Options
  import opened StableSorting
  import opened WarehouseRows

  /** Natural key: game and player (or team), as code points. */
  datatype NaturalKey = NaturalKey(game: seq<int>, entity: seq<int>)

  /** SHA-256 over the payload, and over (key, content hash, first seen). */
  datatype Hashes = Hashes(content: string -> nat, version: (NaturalKey, nat, int) -> nat)

  datatype Version = Version(
    key: NaturalKey, content: string, availableAt: int, ingestedAt: Option<int>, estimated: bool,
    sha: nat, firstSeen: int, status: Option<string>, runId: string, id: nat)

  /** A row stored before versioning; at least one of its two times is known. */
  datatype LegacyRow = LegacyRow(key: NaturalKey, content: string, availableAt: int, ingestedAt: Option<int>, estimated: bool)

  datatype Table = Legacy(legacy: seq<LegacyRow>) | Versioned(versions: seq<Version>)

  datatype BatchRow = BatchRow(
    key: NaturalKey, content: string, availableAt: int, ingestedAt: int, estimated: bool, status: Option<string>)

  // ----- orders

  function OptionLeq(a: Option<int>, b: Option<int>): bool {
    a == None || (b.Some? && a.value <= b.value)
  }

  /** "Latest" order: first seen, then ingested, then available, then id. */
  predicate OrderLeq(a: Version, b: Version) {
    if a.firstSeen != b.firstSeen then a.firstSeen < b.firstSeen
    else if a.ingestedAt != b.ingestedAt then OptionLeq(a.ingestedAt, b.ingestedAt)
    else if a.availableAt != b.availableAt then a.availableAt < b.availableAt
    else a.id <= b.id
  }

  /** The stored row order: available, key, first seen, id. */
  predicate StoredLeq(a: Version, b: Version) {
    if a.availableAt != b.availableAt then a.availableAt < b.availableAt
    else if a.key.game != b.key.game then PointsLeq(a.key.game, b.key.game)
    else if a.key.entity != b.key.entity then PointsLeq(a.key.entity, b.key.entity)
    else if a.firstSeen != b.firstSeen then a.firstSeen < b.firstSeen
    else a.id <= b.id
  }

  function StoredOrder(): (Version, Version) -> bool { (a, b) => StoredLeq(a, b) }

  lemma StoredOrderIsPreorder()
    ensures TotalPreorder(StoredOrder())
  {
    forall a, b, c
      ensures StoredLeq(a, b) || StoredLeq(b, a)
      ensures StoredLeq(a, b) && StoredLeq(b, c) ==> StoredLeq(a, c)
    {
      PointsLeqOrder(a.key.game, b.key.game, c.key.game);
      PointsLeqOrder(b.key.game, c.key.game, a.key.game);
      PointsLeqOrder(a.key.entity, b.key.entity, c.key.entity);
      PointsLeqOrder(b.key.entity, c.key.entity, a.key.entity);
    }
  }

  // ----- selections: at most one row per key, in the original row order

  /** Row `i` is the last of its key in (order, row index). */
  predicate WinsLast(frame: seq<Version>, i: nat)
    requires i < |frame|
  {
    forall j :: 0 <= j < |frame| && frame[j].key == frame[i].key ==>
      OrderLeq(frame[j], frame[i]) && (OrderLeq(frame[i], frame[j]) ==> j <= i)
  }

  predicate WinsFirst(frame: seq<Version>, i: nat)
    requires i < |frame|
  {
    forall j :: 0 <= j < |frame| && frame[j].key == frame[i].key ==>
      OrderLeq(frame[i], frame[j]) && (OrderLeq(frame[j], frame[i]) ==> i <= j)
  }

  function SelectPrefix(frame: seq<Version>, n: nat, last: bool): seq<Version>
    requires n <= |frame|
  {
    if n == 0 then []
    else SelectPrefix(frame, n - 1, last)
         + if (if last then WinsLast(frame, n - 1) else WinsFirst(frame, n - 1)) then [frame[n - 1]] else []
  }

  function SelectOnePerKey(frame: seq<Version>, last: bool): seq<Version> {
    SelectPrefix(frame, |frame|, last)
  }

  /** Rows knowable at `t`; under `strict` an estimated time is rejected. */
  function VisibleAt(t: int, strict: bool): Version -> bool {
    (v: Version) => v.availableAt <= t && !(strict && v.estimated)
  }

  function AsKnownAt(frame: seq<Version>, t: int, strict: bool): seq<Version> {
    SelectOnePerKey(Filter(frame, VisibleAt(t, strict)), true)
  }

  predicate FinalStatus(status: Option<string>) {
    status == None || (|status.value| >= 5 && status.value[..5] == "Final")
  }

  function IsFinal(): Version -> bool { (v: Version) => FinalStatus(v.status) }

  function LatestFinal(frame: seq<Version>): seq<Version> {
    SelectOnePerKey(Filter(frame, IsFinal()), true)
  }

  function FirstKnown(frame: seq<Version>): seq<Version> { SelectOnePerKey(frame, false) }

  function LookUp(s: seq<Version>, k: NaturalKey): Option<Version> {
    if s == [] then None else if s[0].key == k then Some(s[0]) else LookUp(s[1..], k)
  }

  // ----- migration of rows stored before versioning

  function MigrateRow(r: LegacyRow, h: Hashes): Version {
    var firstSeen := if r.ingestedAt.Some? then r.ingestedAt.value else r.availableAt;
    var sha := h.content(r.content);
    Version(r.key, r.content, r.availableAt, r.ingestedAt, r.estimated, sha, firstSeen, None, "legacy-migration",
            h.version(r.key, sha, firstSeen))
  }

  function Migrate(t: Table, h: Hashes): seq<Version> {
    if t.Versioned? then t.versions
    else seq(|t.legacy|, i requires 0 <= i < |t.legacy| => MigrateRow(t.legacy[i], h))
  }

  // ----- append

  datatype Refusal = EstimatedAvailability | ConflictingContents | StaleCorrection | DuplicateVersionId | NotPreserved

  datatype Appended = Appended(newKeys: nat, corrections: nat, same: nat, stored: nat)

  datatype AppendOutcome = Refused(why: Refusal) | Unwritten(result: Appended) | Written(table: seq<Version>, result: Appended)

  /** `allow_estimated` never applies to a strict point-in-time season. */
  datatype AppendArgs = AppendArgs(runId: string, allowEstimated: bool, strictSeason: bool)

  /** The first row of each (key, content hash), in batch order. */
  function Distinct(batch: seq<BatchRow>, h: Hashes): seq<BatchRow> {
    if batch == [] then []
    else
      var rest, b := Distinct(batch[..|batch| - 1], h), batch[|batch| - 1];
      if exists r :: r in rest && r.key == b.key && h.content(r.content) == h.content(b.content) then rest else rest + [b]
  }

  predicate OneContentPerKey(batch: seq<BatchRow>) {
    forall i, j :: 0 <= i < j < |batch| ==> batch[i].key != batch[j].key
  }

  function NewVersion(b: BatchRow, args: AppendArgs, h: Hashes, correction: bool): Version {
    var sha := h.content(b.content);
    Version(b.key, b.content,
            if correction && b.availableAt < b.ingestedAt then b.ingestedAt else b.availableAt,
            Some(b.ingestedAt), if correction then false else b.estimated,
            sha, b.ingestedAt, b.status, args.runId, h.version(b.key, sha, b.ingestedAt))
  }

  predicate IsNewKey(b: BatchRow, latest: seq<Version>) { LookUp(latest, b.key) == None }

  predicate IsCorrection(b: BatchRow, latest: seq<Version>, h: Hashes) {
    var l := LookUp(latest, b.key);
    l.Some? && h.content(b.content) != l.value.sha
  }

  function NewRows(batch: seq<BatchRow>, latest: seq<Version>): seq<BatchRow> {
    Filter(batch, NewKeyIn(latest))
  }

  function CorrectionRows(batch: seq<BatchRow>, latest: seq<Version>, h: Hashes): seq<BatchRow> {
    Filter(batch, CorrectionIn(latest, h))
  }

  function Versions(rows: seq<BatchRow>, args: AppendArgs, h: Hashes, correction: bool): seq<Version> {
    seq(|rows|, i requires 0 <= i < |rows| => NewVersion(rows[i], args, h, correction))
  }

  function Additions(batch: seq<BatchRow>, latest: seq<Version>, args: AppendArgs, h: Hashes): seq<Version> {
    Versions(NewRows(batch, latest), args, h, false) + Versions(CorrectionRows(batch, latest, h), args, h, true)
  }

  predicate Stale(b: BatchRow, latest: seq<Version>) {
    var l := LookUp(latest, b.key);
    l.Some? && b.ingestedAt <= l.value.firstSeen
  }

  predicate DistinctIds(t: seq<Version>) {
    forall i, j :: 0 <= i < j < |t| ==> t[i].id != t[j].id
  }

  function StoredId(stored: seq<Version>): Version -> bool {
    (w: Version) => exists v :: v in stored && v.id == w.id
  }

  function NewKeyIn(latest: seq<Version>): BatchRow -> bool { (b: BatchRow) => IsNewKey(b, latest) }

  function CorrectionIn(latest: seq<Version>, h: Hashes): BatchRow -> bool { (b: BatchRow) => IsCorrection(b, latest, h) }

  /** Every stored version is found byte-identical under its id. */
  predicate Preserved(stored: seq<Version>, written: seq<Version>) {
    multiset(Filter(written, StoredId(stored))) == multiset(stored)
  }

  predicate EstimateRefused(frame: seq<BatchRow>, args: AppendArgs) {
    (exists b :: b in frame && b.estimated) && (!args.allowEstimated || args.strictSeason)
  }

  function AppendVersions(stored: seq<Version>, frame: seq<BatchRow>, args: AppendArgs, h: Hashes): AppendOutcome {
    if frame == [] then Unwritten(Appended(0, 0, 0, |stored|))
    else if EstimateRefused(frame, args) then Refused(EstimatedAvailability)
    else
      var batch := Distinct(frame, h);
      if !OneContentPerKey(batch) then Refused(ConflictingContents)
      else
        var latest := LatestFinal(stored);
        var news, fixes := NewRows(batch, latest), CorrectionRows(batch, latest, h);
        var same := if |batch| >= |news| + |fixes| then |batch| - |news| - |fixes| else 0;
        if exists b :: b in fixes && Stale(b, latest) then Refused(StaleCorrection)
        else
          var additions := Additions(batch, latest, args, h);
          if additions == [] then Unwritten(Appended(0, 0, same, |stored|))
          else
            var out := StableSort(stored + additions, StoredOrder());
            if !DistinctIds(out) then Refused(DuplicateVersionId)
            else if !Preserved(stored, out) then Refused(NotPreserved)
            else Written(out, Appended(|news|, |fixes|, same, |out|))
  }
}

/** The content-addressed store of raw responses and its in-place migration to
    compressed payloads. */
module RawStore {
  import opened Options

  type Bytes = seq<int>

  /** Hashing and lossless compression, as they behave on this machine. */
  datatype Codec = Codec(sha: Bytes -> string, compress: Bytes -> Bytes, decompress: Bytes -> Option<Bytes>)

  datatype Address = Address(directory: string, stem: string)

  datatype Path = Legacy(address: Address) | Compressed(address: Address)

  type Files = map<Path, Bytes>

  datatype State = State(files: Files, metadata: map<Address, string>)

  // ----- reading

  /** The payload a path stands for, in whichever form holds it. */
  function Read(c: Codec, files: Files, path: Path): Option<Bytes> {
    match path
    case Compressed(_) => if path in files then c.decompress(files[path]) else None
    case Legacy(a) =>
      if path in files then Some(files[path])
      else if Compressed(a) in files then c.decompress(files[Compressed(a)])
      else None
  }

  // ----- writing

  datatype Reply = Stored(path: Path) | Collision | RoundTripFailed | MetadataCollision

  predicate RoundTrips(c: Codec, body: Bytes, digest: string) {
    c.decompress(c.compress(body)) == Some(body) && c.sha(body) == digest
  }

  /** The payload part of a write: where the bytes are, or why they are not. */
  function PutPayload(c: Codec, files: Files, a: Address, body: Bytes): (Files, Reply) {
    if Compressed(a) in files then
      (files, if c.decompress(files[Compressed(a)]) == Some(body) then Stored(Compressed(a)) else Collision)
    else if Legacy(a) in files then
      (files, if files[Legacy(a)] == body then Stored(Legacy(a)) else Collision)
    else if RoundTrips(c, body, a.stem) then (files[Compressed(a) := c.compress(body)], Stored(Compressed(a)))
    else (files, RoundTripFailed)
  }

  function AddressOf(c: Codec, directory: string, body: Bytes): Address { Address(directory, c.sha(body)) }

  function WriteReply(c: Codec, s: State, directory: string, body: Bytes): Reply {
    var a := AddressOf(c, directory, body);
    var reply := PutPayload(c, s.files, a, body).1;
    if reply.Stored? && a in s.metadata && s.metadata[a] != a.stem then MetadataCollision else reply
  }

  // ----- converting one legacy file

  datatype Conversion = Converted | SkippedMismatch | RefusedMismatch | RefusedRoundTrip

  function ConvertReply(c: Codec, files: Files, a: Address): Conversion
    requires Legacy(a) in files
  {
    var body := files[Legacy(a)];
    if c.sha(body) != a.stem then SkippedMismatch
    else if Compressed(a) in files then
      if c.decompress(files[Compressed(a)]) == Some(body) then Converted else RefusedMismatch
    else if RoundTrips(c, body, a.stem) then Converted
    else RefusedRoundTrip
  }

  /** The compressed copy is in place and the legacy file still there. */
  function Published(c: Codec, files: Files, a: Address): Files
    requires Legacy(a) in files
  {
    if Compressed(a) in files then files else files[Compressed(a) := c.compress(files[Legacy(a)])]
  }

  // ----- the store as a state machine

  datatype Op =
    | Write(directory: string, body: Bytes)
    | WriteTorn(directory: string, body: Bytes)   // stops before the metadata is written
    | Convert(address: Address)
    | ConvertTorn(address: Address)               // stops before the legacy file is removed

  function Step(c: Codec, s: State, op: Op): State {
    match op
    case Write(d, body) =>
      var a := AddressOf(c, d, body);
      var (files, reply) := PutPayload(c, s.files, a, body);
      State(files, if reply.Stored? && a !in s.metadata then s.metadata[a := a.stem] else s.metadata)
    case WriteTorn(d, body) => s.(files := PutPayload(c, s.files, AddressOf(c, d, body), body).0)
    case Convert(a) =>
      if Legacy(a) in s.files && ConvertReply(c, s.files, a) == Converted then
        s.(files := Published(c, s.files, a) - {Legacy(a)})
      else s
    case ConvertTorn(a) =>
      if Legacy(a) in s.files && ConvertReply(c, s.files, a) == Converted then s.(files := Published(c, s.files, a)) else s
  }

  function Run(c: Codec, s: State, ops: seq<Op>): State
    decreases |ops|
  {
    if ops == [] then s else Run(c, Step(c, s, ops[0]), ops[1..])
  }

  /** One step changes neither what any path reads as nor any compressed file. */
  lemma StepKeepsReads(c: Codec, s: State, op: Op, path: Path)
    requires Read(c, s.files, path).Some?
    ensures Read(c, Step(c, s, op).files, path) == Read(c, s.files, path)
  {
  }

  lemma StepKeepsCompressed(c: Codec, s: State, op: Op, a: Address)
    requires Compressed(a) in s.files
    ensures Compressed(a) in Step(c, s, op).files && Step(c, s, op).files[Compressed(a)] == s.files[Compressed(a)]
  {
  }

  /** Whatever a path reads as, it reads as after any run of writes, conversions
      and either of them interrupted. */
  lemma {:induction false} ReadsAreStable(c: Codec, s: State, ops: seq<Op>, path: Path)
    requires Read(c, s.files, path).Some?
    ensures Read(c, Run(c, s, ops).files, path) == Read(c, s.files, path)
    decreases |ops|
  {
    if ops != [] {
      StepKeepsReads(c, s, ops[0], path);
      ReadsAreStable(c, Step(c, s, ops[0]), ops[1..], path);
    }
  }

  /** Every reference a write returns reads back the written bytes, now and after
      any later run, with no assumption about hashing or compression. */
  lemma ReferencesStayReadable(c: Codec, s: State, directory: string, body: Bytes, ops: seq<Op>)
    requires WriteReply(c, s, directory, body).Stored?
    ensures Read(c, Run(c, Step(c, s, Write(directory, body)), ops).files, WriteReply(c, s, directory, body).path) == Some(body)
  {
    var s' := Step(c, s, Write(directory, body));
    assert Read(c, s'.files, WriteReply(c, s, directory, body).path) == Some(body);
    ReadsAreStable(c, s', ops, WriteReply(c, s, directory, body).path);
  }

  /** The bytes a write at this address compares against are `body`. */
  predicate Held(c: Codec, files: Files, a: Address, body: Bytes) {
    if Compressed(a) in files then c.decompress(files[Compressed(a)]) == Some(body)
    else Legacy(a) in files && files[Legacy(a)] == body
  }

  lemma {:induction false} HeldForever(c: Codec, s: State, ops: seq<Op>, a: Address, body: Bytes)
    requires Held(c, s.files, a, body) && a in s.metadata && s.metadata[a] == a.stem
    ensures Held(c, Run(c, s, ops).files, a, body)
    ensures a in Run(c, s, ops).metadata && Run(c, s, ops).metadata[a] == a.stem
    decreases |ops|
  {
    if ops != [] { HeldForever(c, Step(c, s, ops[0]), ops[1..], a, body); }
  }

  /** Bytes stored once can be written again after any run: nothing changes, and
      the write is accepted. */
  lemma RewriteIsIdempotent(c: Codec, s: State, directory: string, body: Bytes, ops: seq<Op>)
    requires WriteReply(c, s, directory, body).Stored?
    ensures var later := Run(c, Step(c, s, Write(directory, body)), ops);
            && WriteReply(c, later, directory, body).Stored?
            && Step(c, later, Write(directory, body)) == later
  {
    HeldForever(c, Step(c, s, Write(directory, body)), ops, AddressOf(c, directory, body), body);
  }

  // ----- when a write succeeds

  predicate Lossless(c: Codec, body: Bytes) { c.decompress(c.compress(body)) == Some(body) }

  /** Bytes at an address nothing is stored at yet are stored exactly when they
      come back from compression unchanged; nothing else changes. */
  lemma FreshWriteStores(c: Codec, s: State, directory: string, body: Bytes)
    requires var a := Address(directory, c.sha(body));
             Compressed(a) !in s.files && Legacy(a) !in s.files && a !in s.metadata
    ensures var a, s' := Address(directory, c.sha(body)), Step(c, s, Write(directory, body));
            && (WriteReply(c, s, directory, body) == Stored(Compressed(a)) <==> Lossless(c, body))
            && (Lossless(c, body) ==> s'.files == s.files[Compressed(a) := c.compress(body)] && s'.metadata == s.metadata[a := a.stem])
            && (!Lossless(c, body) ==> WriteReply(c, s, directory, body) == RoundTripFailed && s' == s)
  {
  }

  /** A store that was only ever written to: each compressed file restores bytes
      that hash to its address, and each recorded hash is that address. */
  ghost predicate Addressed(c: Codec, s: State) {
    && (forall p :: p in s.files ==> p.Compressed? && Restores(c, s.files[p], p.address.stem))
    && (forall a :: a in s.metadata ==> s.metadata[a] == a.stem)
  }

  predicate Restores(c: Codec, blob: Bytes, digest: string) {
    c.decompress(blob).Some? && c.sha(c.decompress(blob).value) == digest && c.compress(c.decompress(blob).value) == blob
  }

  lemma {:induction false} RunKeepsAddressed(c: Codec, s: State, ops: seq<Op>)
    requires Addressed(c, s)
    ensures Addressed(c, Run(c, s, ops))
    decreases |ops|
  {
    if ops != [] {
      StepKeepsAddressed(c, s, ops[0]);
      RunKeepsAddressed(c, Step(c, s, ops[0]), ops[1..]);
    }
  }

  lemma StepKeepsAddressed(c: Codec, s: State, op: Op)
    requires Addressed(c, s)
    ensures Addressed(c, Step(c, s, op))
  {
  }

  /** After any run from an empty store a write is accepted exactly when its bytes
      survive compression and no other bytes of the same hash are stored in the
      directory; then they are there, and otherwise it is refused for the one
      reason or the other. */
  lemma WriteSucceedsExactly(c: Codec, ops: seq<Op>, directory: string, body: Bytes)
    ensures var s := Run(c, State(map[], map[]), ops);
            var a, reply := Address(directory, c.sha(body)), WriteReply(c, s, directory, body);
            var other := Compressed(a) in s.files && c.decompress(s.files[Compressed(a)]) != Some(body);
            && (reply == Stored(Compressed(a)) <==> Lossless(c, body) && !other)
            && (reply == Collision <==> other)
            && (reply == RoundTripFailed <==> !Lossless(c, body) && !other)
            && (reply.Stored? ==> Read(c, Step(c, s, Write(directory, body)).files, Compressed(a)) == Some(body))
  {
    var s := Run(c, State(map[], map[]), ops);
    RunKeepsAddressed(c, State(map[], map[]), ops);
    var a := Address(directory, c.sha(body));
    assert Legacy(a) !in s.files;
    if Compressed(a) in s.files { assert Restores(c, s.files[Compressed(a)], a.stem); }
  }

  // ----- converting a batch

  datatype Stats = Stats(converted: nat, bytesBefore: nat, bytesAfter: nat, skipped: seq<Address>)

  datatype Batch = Finished(files: Files, stats: Stats) | Refused(files: Files, at: Address)

  /** The files of `batch` converted one after the other, stopping at the first
      that is refused. */
  function ConvertAll(c: Codec, files: Files, batch: seq<Address>): Batch {
    if batch == [] then Finished(files, Stats(0, 0, 0, []))
    else match ConvertAll(c, files, batch[..|batch| - 1])
      case Refused(now, at) => Refused(now, at)
      case Finished(now, stats) => ConvertNext(c, now, stats, batch[|batch| - 1])
  }

  function ConvertNext(c: Codec, files: Files, stats: Stats, a: Address): Batch {
    if Legacy(a) !in files then Refused(files, a)
    else match ConvertReply(c, files, a)
      case SkippedMismatch => Finished(files, stats.(skipped := stats.skipped + [a]))
      case RefusedMismatch => Refused(files, a)
      case RefusedRoundTrip => Refused(files, a)
      case Converted =>
        var published := Published(c, files, a);
        Finished(published - {Legacy(a)},
                 Stats(stats.converted + 1, stats.bytesBefore + |files[Legacy(a)]|,
                       stats.bytesAfter + |published[Compressed(a)]|, stats.skipped))
  }

  predicate Matches(c: Codec, files: Files, a: Address) { Legacy(a) in files && c.sha(files[Legacy(a)]) == a.stem }

  /** How many of the listed files match their address. */
  function Matching(c: Codec, files: Files, batch: seq<Address>): nat {
    if batch == [] then 0 else Matching(c, files, batch[..|batch| - 1]) + if Matches(c, files, batch[|batch| - 1]) then 1 else 0
  }

  lemma {:induction false} SomeMatch(c: Codec, files: Files, batch: seq<Address>)
    ensures Matching(c, files, batch) > 0 <==> exists i :: 0 <= i < |batch| && Matches(c, files, batch[i])
  {
    if batch != [] {
      var n := |batch| - 1;
      SomeMatch(c, files, batch[..n]);
      if Matching(c, files, batch[..n]) > 0 {
        var i :| 0 <= i < n && Matches(c, files, batch[..n][i]);
        assert batch[i] == batch[..n][i];
      }
      assert forall i :: 0 <= i < n ==> batch[..n][i] == batch[i];
    }
  }

  predicate Distinct(s: seq<Address>) { forall i, j :: 0 <= i < j < |s| ==> s[i] != s[j] }

  /** The operations a batch amounts to. */
  function Conversions(batch: seq<Address>): seq<Op> { seq(|batch|, i requires 0 <= i < |batch| => Convert(batch[i])) }

  lemma {:induction false} RunSnoc(c: Codec, s: State, ops: seq<Op>, op: Op)
    ensures Run(c, s, ops + [op]) == Step(c, Run(c, s, ops), op)
    decreases |ops|
  {
    if ops == [] {
      assert ops + [op] == [op];
      assert [op][1..] == [];
    } else {
      assert (ops + [op])[1..] == ops[1..] + [op];
      RunSnoc(c, Step(c, s, ops[0]), ops[1..], op);
    }
  }

  /** A finished batch is a run of single conversions, so every reference
      survives it. */
  lemma {:induction false} BatchIsRun(c: Codec, s: State, batch: seq<Address>)
    requires ConvertAll(c, s.files, batch).Finished?
    ensures Run(c, s, Conversions(batch)) == s.(files := ConvertAll(c, s.files, batch).files)
  {
    if batch == [] {
      assert Conversions(batch) == [];
    } else {
      var n := |batch| - 1;
      BatchIsRun(c, s, batch[..n]);
      RunSnoc(c, s, Conversions(batch[..n]), Convert(batch[n]));
      assert Conversions(batch) == Conversions(batch[..n]) + [Convert(batch[n])];
    }
  }

  /** Exactly the listed files whose bytes match their address are gone, each
      restored by its compressed copy, and the others are reported in order. */
  ghost predicate Accounts(c: Codec, files: Files, batch: seq<Address>, now: Files, stats: Stats) {
    && stats.converted == Matching(c, files, batch) && stats.converted + |stats.skipped| == |batch|
    && (forall a :: a in stats.skipped <==> a in batch && !Matches(c, files, a))
    && (forall a :: Legacy(a) in now <==> Legacy(a) in files && !(a in batch && Matches(c, files, a)))
    && (forall a :: Legacy(a) in now ==> now[Legacy(a)] == files[Legacy(a)])
    && (forall a :: a in batch && Matches(c, files, a) ==> Restored(c, files, now, a))
  }

  predicate Restored(c: Codec, files: Files, now: Files, a: Address)
    requires Legacy(a) in files
  {
    Compressed(a) in now && c.decompress(now[Compressed(a)]) == Some(files[Legacy(a)])
  }

  lemma AccountsNext(c: Codec, files: Files, batch: seq<Address>, now: Files, stats: Stats, a: Address)
    requires Accounts(c, files, batch, now, stats) && a !in batch && Legacy(a) in files
    requires ConvertNext(c, now, stats, a).Finished?
    ensures Accounts(c, files, batch + [a], ConvertNext(c, now, stats, a).files, ConvertNext(c, now, stats, a).stats)
  {
    assert (batch + [a])[..|batch|] == batch;
    assert Legacy(a) in now && (Matches(c, now, a) <==> Matches(c, files, a));
    var next := ConvertNext(c, now, stats, a);
    forall b | b in batch && Matches(c, files, b) ensures Restored(c, files, next.files, b) { assert Restored(c, files, now, b); }
    if Matches(c, files, a) { assert Restored(c, files, next.files, a); }
  }

  lemma {:induction false} BatchAccounting(c: Codec, files: Files, batch: seq<Address>)
    requires Distinct(batch) && (forall a :: a in batch ==> Legacy(a) in files) && ConvertAll(c, files, batch).Finished?
    ensures Accounts(c, files, batch, ConvertAll(c, files, batch).files, ConvertAll(c, files, batch).stats)
  {
    if batch != [] {
      var n := |batch| - 1;
      assert batch == batch[..n] + [batch[n]];
      BatchAccounting(c, files, batch[..n]);
      var earlier := ConvertAll(c, files, batch[..n]);
      AccountsNext(c, files, batch[..n], earlier.files, earlier.stats, batch[n]);
    }
  }

  // ----- when a pass finishes

  /** A listed file that stops a pass: its bytes match its address, and either
      another payload is already in place or they do not survive compression. */
  predicate Stops(c: Codec, files: Files, a: Address) {
    && Matches(c, files, a)
    && (if Compressed(a) in files then c.decompress(files[Compressed(a)]) != Some(files[Legacy(a)])
        else !Lossless(c, files[Legacy(a)]))
  }

  /** A pass over legacy files, each listed once, finishes exactly when none of
      them stops it; and one that does not is refused at the first that does. */
  lemma {:induction false} FinishesExactly(c: Codec, files: Files, batch: seq<Address>)
    requires Distinct(batch) && forall a :: a in batch ==> Legacy(a) in files
    ensures ConvertAll(c, files, batch).Finished? <==> forall a :: a in batch ==> !Stops(c, files, a)
    ensures ConvertAll(c, files, batch).Refused? ==>
              exists i :: FirstStop(c, files, batch, i) && ConvertAll(c, files, batch).at == batch[i]
    ensures forall p: Path :: p.address !in batch ==>
              (p in ConvertAll(c, files, batch).files <==> p in files)
              && (p in files ==> ConvertAll(c, files, batch).files[p] == files[p])
  {
    hide ConvertNext, Stops;
    if batch != [] {
      var n := |batch| - 1;
      var before, a := ConvertAll(c, files, batch[..n]), batch[n];
      assert batch == batch[..n] + [a];
      FinishesExactly(c, files, batch[..n]);
      if before.Finished? {
        assert Legacy(a).address !in batch[..n] && Compressed(a).address !in batch[..n];
        NextStops(c, files, before.files, before.stats, a);
        if Stops(c, files, a) { assert FirstStop(c, files, batch, n); }
      } else {
        var i :| FirstStop(c, files, batch[..n], i) && before.at == batch[..n][i];
        assert FirstStop(c, files, batch, i);
      }
    }
  }

  lemma NextStops(c: Codec, files: Files, now: Files, stats: Stats, a: Address)
    requires Legacy(a) in files && Legacy(a) in now && now[Legacy(a)] == files[Legacy(a)]
    requires Compressed(a) in now <==> Compressed(a) in files
    requires Compressed(a) in files ==> now[Compressed(a)] == files[Compressed(a)]
    ensures var next := ConvertNext(c, now, stats, a);
            && (next.Finished? <==> !Stops(c, files, a)) && (next.Refused? ==> next.at == a)
            && (forall p: Path :: p.address != a ==> (p in next.files <==> p in now) && (p in now ==> next.files[p] == now[p]))
  {
  }

  predicate FirstStop(c: Codec, files: Files, batch: seq<Address>, i: int) {
    0 <= i < |batch| && Stops(c, files, batch[i]) && forall j :: 0 <= j < i ==> !Stops(c, files, batch[j])
  }

  /** The bytes the listed matching files hold, and what their copies hold. */
  function LegacyBytes(c: Codec, files: Files, batch: seq<Address>): nat {
    if batch == [] then 0
    else
      var a := batch[|batch| - 1];
      LegacyBytes(c, files, batch[..|batch| - 1]) + if Matches(c, files, a) then |files[Legacy(a)]| else 0
  }

  function CompressedBytes(c: Codec, files: Files, now: Files, batch: seq<Address>): nat {
    if batch == [] then 0
    else
      var a := batch[|batch| - 1];
      CompressedBytes(c, files, now, batch[..|batch| - 1])
      + if Matches(c, files, a) && Compressed(a) in now then |now[Compressed(a)]| else 0
  }

  /** The byte counts a finished pass reports are those of the files it converted,
      before and after. */
  lemma {:induction false} BytesAddUp(c: Codec, files: Files, batch: seq<Address>)
    requires Distinct(batch) && (forall a :: a in batch ==> Legacy(a) in files) && ConvertAll(c, files, batch).Finished?
    ensures ConvertAll(c, files, batch).stats.bytesBefore == LegacyBytes(c, files, batch)
    ensures ConvertAll(c, files, batch).stats.bytesAfter == CompressedBytes(c, files, ConvertAll(c, files, batch).files, batch)
  {
    hide ConvertAll, LegacyBytes, CompressedBytes, Matches;
    if batch == [] {
      EmptyBatch(c, files);
      NoBytes(c, files);
    } else {
      var rest, a := batch[..|batch| - 1], batch[|batch| - 1];
      assert batch == rest + [a];
      if ConvertAll(c, files, rest).Refused? { RefusalStays(c, files, batch, |batch| - 1); }
      BytesAddUp(c, files, rest);
      BytesStep(c, files, rest, a);
    }
  }

  lemma BytesStep(c: Codec, files: Files, rest: seq<Address>, a: Address)
    requires Distinct(rest + [a]) && forall x :: x in rest + [a] ==> Legacy(x) in files
    requires ConvertAll(c, files, rest).Finished? && ConvertAll(c, files, rest + [a]).Finished?
    requires ConvertAll(c, files, rest).stats.bytesBefore == LegacyBytes(c, files, rest)
    requires ConvertAll(c, files, rest).stats.bytesAfter == CompressedBytes(c, files, ConvertAll(c, files, rest).files, rest)
    ensures ConvertAll(c, files, rest + [a]).stats.bytesBefore == LegacyBytes(c, files, rest + [a])
    ensures ConvertAll(c, files, rest + [a]).stats.bytesAfter
            == CompressedBytes(c, files, ConvertAll(c, files, rest + [a]).files, rest + [a])
  {
    hide ConvertAll, ConvertNext, LegacyBytes, CompressedBytes, Matches, Distinct;
    var batch, before := rest + [a], ConvertAll(c, files, rest);
    assert batch[..|rest|] == rest && batch[..|rest| + 1] == batch;
    DistinctFront(rest, a);
    FinishesExactly(c, files, rest);
    assert Legacy(a).address !in rest;
    assert a in batch;
    ConvertAllStep(c, files, batch, |rest|, before.files, before.stats);
    NextKeepsOthers(c, before.files, before.stats, a);
    BytesGrow(c, files, ConvertAll(c, files, batch).files, rest, a);
    SameMatch(c, files, before.files, a);
    SameCompressedBytes(c, files, before.files, ConvertAll(c, files, batch).files, rest);
  }

  lemma DistinctFront(rest: seq<Address>, a: Address)
    requires Distinct(rest + [a])
    ensures Distinct(rest) && a !in rest
  {
    var batch := rest + [a];
    forall i, j | 0 <= i < j < |rest| ensures rest[i] != rest[j] { assert batch[i] == rest[i] && batch[j] == rest[j]; }
    assert batch[|rest|] == a;
    forall i | 0 <= i < |rest| ensures rest[i] != a { assert batch[i] == rest[i]; }
  }

  lemma NoBytes(c: Codec, files: Files)
    ensures LegacyBytes(c, files, []) == 0 && CompressedBytes(c, files, files, []) == 0
  {
  }

  lemma SameMatch(c: Codec, files: Files, now: Files, a: Address)
    requires Legacy(a) in files && Legacy(a) in now && now[Legacy(a)] == files[Legacy(a)]
    ensures Matches(c, now, a) == Matches(c, files, a)
  {
  }

  lemma BytesGrow(c: Codec, files: Files, now: Files, batch: seq<Address>, a: Address)
    ensures LegacyBytes(c, files, batch + [a]) == LegacyBytes(c, files, batch) + if Matches(c, files, a) then |files[Legacy(a)]| else 0
    ensures CompressedBytes(c, files, now, batch + [a])
            == CompressedBytes(c, files, now, batch) + if Matches(c, files, a) && Compressed(a) in now then |now[Compressed(a)]| else 0
  {
    assert (batch + [a])[..|batch|] == batch;
  }

  lemma NextKeepsOthers(c: Codec, files: Files, stats: Stats, a: Address)
    requires Legacy(a) in files && ConvertNext(c, files, stats, a).Finished?
    ensures var next := ConvertNext(c, files, stats, a);
            && (forall p: Path :: p.address != a ==> (p in next.files <==> p in files) && (p in files ==> next.files[p] == files[p]))
            && (if Matches(c, files, a) then
                  && Compressed(a) in next.files
                  && next.stats.bytesBefore == stats.bytesBefore + |files[Legacy(a)]|
                  && next.stats.bytesAfter == stats.bytesAfter + |next.files[Compressed(a)]|
                else next.stats.bytesBefore == stats.bytesBefore && next.stats.bytesAfter == stats.bytesAfter)
  {
  }

  lemma {:induction false} SameCompressedBytes(c: Codec, files: Files, a: Files, b: Files, batch: seq<Address>)
    requires forall x :: x in batch ==> (Compressed(x) in a <==> Compressed(x) in b) && (Compressed(x) in a ==> a[Compressed(x)] == b[Compressed(x)])
    ensures CompressedBytes(c, files, a, batch) == CompressedBytes(c, files, b, batch)
  {
    if batch != [] { SameCompressedBytes(c, files, a, b, batch[..|batch| - 1]); }
  }

  /** A second full pass converts nothing and reports the same files. */
  lemma SecondPassIsIdle(c: Codec, files: Files, pending: seq<Address>, again: seq<Address>)
    requires Distinct(pending) && (forall a :: a in pending <==> Legacy(a) in files)
    requires ConvertAll(c, files, pending).Finished?
    requires Distinct(again) && forall a :: a in again <==> Legacy(a) in ConvertAll(c, files, pending).files
    ensures var first := ConvertAll(c, files, pending);
            var second := ConvertAll(c, first.files, again);
            second.Finished? && second.files == first.files && second.stats.converted == 0 && second.stats.skipped == again
  {
    BatchAccounting(c, files, pending);
    var first := ConvertAll(c, files, pending);
    forall a | a in again ensures Legacy(a) in first.files && !Matches(c, first.files, a) {
      assert Legacy(a) in files && a in pending;
    }
    AllSkipped(c, first.files, again);
  }

  lemma {:induction false} AllSkipped(c: Codec, files: Files, batch: seq<Address>)
    requires forall a :: a in batch ==> Legacy(a) in files && !Matches(c, files, a)
    ensures ConvertAll(c, files, batch) == Finished(files, Stats(0, 0, 0, batch))
  {
    if batch != [] {
      var n := |batch| - 1;
      assert batch == batch[..n] + [batch[n]];
      AllSkipped(c, files, batch[..n]);
    }
  }

  /** A limited pass moves forward exactly when its first files include one whose
      bytes match its address: mismatched files listed first hold it up. */
  lemma LimitedPassProgresses(c: Codec, files: Files, pending: seq<Address>, limit: nat)
    requires Distinct(pending) && (forall a :: a in pending ==> Legacy(a) in files) && limit <= |pending|
    requires ConvertAll(c, files, pending[..limit]).Finished?
    ensures ConvertAll(c, files, pending[..limit]).stats.converted > 0 <==> exists i :: 0 <= i < limit && Matches(c, files, pending[i])
  {
    var batch := pending[..limit];
    BatchAccounting(c, files, batch);
    SomeMatch(c, files, batch);
    assert forall i :: 0 <= i < limit ==> batch[i] == pending[i];
  }

  /** Migration held up: one mismatched file listed first, one convertible file
      behind it, and a limit of one file a pass. */
  lemma MismatchHoldsUpMigration() returns (c: Codec, files: Files, pending: seq<Address>)
    ensures Distinct(pending) && (forall a :: a in pending <==> Legacy(a) in files) && |pending| == 2
    ensures Matches(c, files, pending[1])
    ensures ConvertAll(c, files, pending[..1]).Finished? && ConvertAll(c, files, pending[..1]).stats.converted == 0
    ensures ConvertAll(c, files, pending[..1]).files == files
  {
    c := Codec(body => if body == [] then "e" else "f", body => body, body => Some(body));
    var stuck, fine := Address("d", "a"), Address("d", "f");
    files := map[Legacy(stuck) := [1], Legacy(fine) := [1]];
    pending := [stuck, fine];
    assert pending[..1] == [stuck];
    AllSkipped(c, files, pending[..1]);
  }

  // ----- the store

  datatype Report = Report(converted: nat, bytesBefore: nat, bytesAfter: nat, skipped: seq<Address>, remaining: int)

  datatype MigrationResult = Migrated(report: Report) | MigrationRefused(at: Address)

  class Store {
    var files: Files
    var metadata: map<Address, string>
    const codec: Codec

    function Contents(): State
      reads this
    {
      State(files, metadata)
    }

    constructor (codec: Codec)
      ensures Contents() == State(map[], map[]) && this.codec == codec
    {
      this.codec := codec;
      files, metadata := map[], map[];
    }

    /** Publish the compressed bytes, after proving they restore exactly. */
    method WriteVerified(a: Address, body: Bytes) returns (ok: bool)
      modifies this`files
      ensures ok == RoundTrips(codec, body, a.stem)
      ensures files == if ok then old(files)[Compressed(a) := codec.compress(body)] else old(files)
    {
      var blob := codec.compress(body);
      var restored := codec.decompress(blob);
      if restored != Some(body) || codec.sha(restored.value) != a.stem { return false; }
      files := files[Compressed(a) := blob];
      ok := true;
    }

    method WriteJson(directory: string, body: Bytes) returns (r: Reply)
      modifies this
      ensures r == WriteReply(codec, old(Contents()), directory, body)
      ensures Contents() == Step(codec, old(Contents()), Write(directory, body))
    {
      var digest := codec.sha(body);
      var a := Address(directory, digest);
      var path := Compressed(a);
      if Compressed(a) in files {
        if codec.decompress(files[Compressed(a)]) != Some(body) { return Collision; }
      } else if Legacy(a) in files {
        if files[Legacy(a)] != body { return Collision; }
        path := Legacy(a);
      } else {
        var ok := WriteVerified(a, body);
        if !ok { return RoundTripFailed; }
      }
      if a in metadata {
        if metadata[a] != digest { return MetadataCollision; }
      } else {
        metadata := metadata[a := digest];
      }
      r := Stored(path);
    }

    method ReadBytes(path: Path) returns (r: Option<Bytes>)
      ensures r == Read(codec, files, path)
    {
      if path.Compressed? { return if path in files then codec.decompress(files[path]) else None; }
      if path in files { return Some(files[path]); }
      var compressed := Compressed(path.address);
      r := if compressed in files then codec.decompress(files[compressed]) else None;
    }

    /** One legacy file: checked, published if need be, and only then removed. */
    method ConvertLegacy(a: Address) returns (reply: Conversion, before: nat, after: nat)
      requires Legacy(a) in files
      modifies this`files
      ensures reply == ConvertReply(codec, old(files), a)
      ensures reply != Converted ==> files == old(files)
      ensures reply == Converted ==>
                && files == Published(codec, old(files), a) - {Legacy(a)}
                && before == |old(files)[Legacy(a)]| && after == |Published(codec, old(files), a)[Compressed(a)]|
    {
      var body := files[Legacy(a)];
      before, after := |body|, 0;
      if codec.sha(body) != a.stem { return SkippedMismatch, before, after; }
      if Compressed(a) in files {
        if codec.decompress(files[Compressed(a)]) != Some(body) { return RefusedMismatch, before, after; }
      } else {
        var ok := WriteVerified(a, body);
        if !ok { return RefusedRoundTrip, before, after; }
      }
      after := |files[Compressed(a)]|;
      files := files - {Legacy(a)};
      reply := Converted;
    }

    /** `pending` lists the legacy files, each once, in the order taken. */
    method CompressLegacyPayloads(pending: seq<Address>, maxFiles: Option<nat>) returns (r: MigrationResult)
      requires Distinct(pending) && forall a :: a in pending <==> Legacy(a) in files
      modifies this`files
      ensures var batch := if maxFiles.None? || maxFiles.value > |pending| then pending else pending[..maxFiles.value];
              var all := ConvertAll(codec, old(files), batch);
              && files == all.files && (r.Migrated? <==> all.Finished?)
              && (r.MigrationRefused? ==> r.at == all.at)
              && (r.Migrated? ==>
                    && all.stats == Stats(r.report.converted, r.report.bytesBefore, r.report.bytesAfter, r.report.skipped)
                    && r.report.converted + |r.report.skipped| + r.report.remaining == |pending|
                    && r.report.remaining == |pending| - |batch|)
    {
      hide ConvertReply, Published, ConvertAll;
      var converted: nat, before: nat, after: nat, skipped := 0, 0, 0, [];
      var batch := if maxFiles.None? || maxFiles.value > |pending| then pending else pending[..maxFiles.value];
      BatchListed(pending, batch);
      EmptyBatch(codec, files);
      var i := 0;
      assert batch[..0] == [];
      while i < |batch|
        invariant 0 <= i <= |batch|
        invariant ConvertAll(codec, old(files), batch[..i]) == Finished(files, Stats(converted, before, after, skipped))
        invariant forall j :: i <= j < |batch| ==> Legacy(batch[j]) in files
        invariant i == converted + |skipped|
      {
        ConvertAllStep(codec, old(files), batch, i, files, Stats(converted, before, after, skipped));
        PublishedKeeps(codec, files, batch[i]);
        var reply, size, stored := ConvertLegacy(batch[i]);
        if reply == SkippedMismatch {
          skipped := skipped + [batch[i]];
        } else if reply == Converted {
          converted, before, after := converted + 1, before + size, after + stored;
        } else {
          RefusalStays(codec, old(files), batch, i + 1);
          return MigrationRefused(batch[i]);
        }
        i := i + 1;
      }
      assert batch[..i] == batch;
      r := Migrated(Report(converted, before, after, skipped, |pending| - converted - |skipped|));
    }
  }

  lemma BatchListed(pending: seq<Address>, batch: seq<Address>)
    requires Distinct(pending) && batch <= pending
    ensures forall i, j :: 0 <= i < j < |batch| ==> batch[i] != batch[j]
    ensures forall j :: 0 <= j < |batch| ==> batch[j] in pending
  {
    forall j | 0 <= j < |batch| ensures batch[j] in pending { assert batch[j] == pending[j]; }
  }

  lemma EmptyBatch(c: Codec, files: Files)
    ensures ConvertAll(c, files, []) == Finished(files, Stats(0, 0, 0, []))
  {
  }

  lemma ConvertAllStep(c: Codec, files: Files, batch: seq<Address>, i: nat, now: Files, stats: Stats)
    requires i < |batch| && ConvertAll(c, files, batch[..i]) == Finished(now, stats)
    ensures ConvertAll(c, files, batch[..i + 1]) == ConvertNext(c, now, stats, batch[i])
  {
    assert batch[..i + 1][..i] == batch[..i];
  }

  lemma PublishedKeeps(c: Codec, files: Files, a: Address)
    requires Legacy(a) in files
    ensures forall b :: b != a && Legacy(b) in files ==> Legacy(b) in Published(c, files, a) - {Legacy(a)}
  {
  }

  lemma {:induction false} RefusalStays(c: Codec, files: Files, batch: seq<Address>, i: nat)
    requires i <= |batch| && ConvertAll(c, files, batch[..i]).Refused?
    ensures ConvertAll(c, files, batch) == ConvertAll(c, files, batch[..i])
  {
    if i < |batch| {
      assert batch[..|batch| - 1][..i] == batch[..i];
      RefusalStays(c, files, batch[..|batch| - 1], i);
    } else {
      assert batch[..i] == batch;
    }
  }
}

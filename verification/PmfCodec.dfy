/** The compact binary form of a sparse distribution, with probabilities kept as
    their exact 64-bit patterns. */
module PmfCodec {
  import opened Options
  import opened BigEndian

  const TWO_TO_63: int := 0x8000_0000_0000_0000
  const TWO_TO_64: int := 0x1_0000_0000_0000_0000
  const TWO_TO_52: int := 0x10_0000_0000_0000
  const TWO_TO_32: int := 0x1_0000_0000

  // ----- 64-bit patterns

  type Bits = b: int | 0 <= b < 0x1_0000_0000_0000_0000

  function Sign(b: Bits): int { b / TWO_TO_63 }

  function Exponent(b: Bits): int { b / TWO_TO_52 % 2048 }

  /** Section 3.4 of IEEE 754-2008: an exponent of all ones is an infinity or not
      a number. */
  predicate Finite(b: Bits) { Exponent(b) != 2047 }

  predicate IsZero(b: Bits) { b % TWO_TO_63 == 0 }

  predicate Positive(b: Bits) { Finite(b) && Sign(b) == 0 && !IsZero(b) }

  /** The finite positive patterns are one interval of integers. */
  lemma PositiveIsInterval(b: Bits)
    ensures Positive(b) <==> 0 < b < 0x7FF0_0000_0000_0000
  {
    assert TWO_TO_63 == 2048 * TWO_TO_52 && 0x7FF0_0000_0000_0000 == 2047 * TWO_TO_52;
    if b < TWO_TO_63 {
      assert b / TWO_TO_52 < 2048;
    }
  }

  /** Addition and the tolerance test, as the machine performs them. */
  datatype Arithmetic = Arithmetic(add: (Bits, Bits) -> Bits, nearOne: Bits -> bool)

  // ----- errors and validation

  datatype Problem = LengthMismatch | NoOutcomes | NotIncreasing | NotFinite | NotPositive | BadSum
                   | TooShort | BadMagic | BadVersion | BadLength | OutcomeRange | CountRange

  datatype Encoded = Payload(bytes: seq<Byte>) | Refused(problem: Problem)

  datatype Decoded = Pairs(outcomes: seq<int>, probabilities: seq<Bits>) | Rejected(reason: Problem)

  predicate Increasing(s: seq<int>) { forall i :: 1 <= i < |s| ==> s[i - 1] < s[i] }

  /** The first unacceptable probability, in order. */
  function MassProblem(p: seq<Bits>): Option<Problem> {
    if p == [] then None
    else match MassProblem(p[..|p| - 1])
      case Some(problem) => Some(problem)
      case None =>
        if !Finite(p[|p| - 1]) then Some(NotFinite) else if !Positive(p[|p| - 1]) then Some(NotPositive) else None
  }

  function RunningTotal(p: seq<Bits>, fl: Arithmetic): Bits {
    if p == [] then 0 else fl.add(RunningTotal(p[..|p| - 1], fl), p[|p| - 1])
  }

  function Validation(outcomes: seq<int>, probabilities: seq<Bits>, fl: Arithmetic): Option<Problem> {
    if |outcomes| != |probabilities| then Some(LengthMismatch)
    else if outcomes == [] then Some(NoOutcomes)
    else if !Increasing(outcomes) then Some(NotIncreasing)
    else if MassProblem(probabilities).Some? then MassProblem(probabilities)
    else if !fl.nearOne(RunningTotal(probabilities, fl)) then Some(BadSum)
    else None
  }

  /** What a valid sequence is, without the order of the checks. */
  predicate Valid(outcomes: seq<int>, probabilities: seq<Bits>, fl: Arithmetic) {
    && |outcomes| == |probabilities| > 0 && (forall i, j :: 0 <= i < j < |outcomes| ==> outcomes[i] < outcomes[j])
    && (forall i :: 0 <= i < |probabilities| ==> 0 < probabilities[i] < 0x7FF0_0000_0000_0000)
    && fl.nearOne(RunningTotal(probabilities, fl))
  }

  lemma {:induction false} MassProblemMeaning(p: seq<Bits>)
    ensures MassProblem(p).None? <==> forall i :: 0 <= i < |p| ==> 0 < p[i] < 0x7FF0_0000_0000_0000
  {
    if p != [] {
      var n := |p| - 1;
      MassProblemMeaning(p[..n]);
      PositiveIsInterval(p[n]);
      assert forall i :: 0 <= i < n ==> p[..n][i] == p[i];
    }
  }

  /** Neighbour by neighbour is enough. */
  lemma {:induction false} IncreasingMeaning(s: seq<int>)
    ensures Increasing(s) <==> forall i, j :: 0 <= i < j < |s| ==> s[i] < s[j]
  {
    if s != [] && Increasing(s) {
      var n := |s| - 1;
      IncreasingMeaning(s[..n]);
      forall i, j | 0 <= i < j < |s| ensures s[i] < s[j] {
        if j < n { assert s[..n][i] < s[..n][j]; } else if i < n - 1 { assert s[..n][i] < s[..n][n - 1]; }
      }
    }
  }

  lemma ValidExactly(outcomes: seq<int>, probabilities: seq<Bits>, fl: Arithmetic)
    ensures Validation(outcomes, probabilities, fl).None? <==> Valid(outcomes, probabilities, fl)
  {
    MassProblemMeaning(probabilities);
    IncreasingMeaning(outcomes);
  }

  method ValidatePmfSequence(outcomes: seq<int>, probabilities: seq<Bits>, fl: Arithmetic) returns (problem: Option<Problem>)
    ensures problem == Validation(outcomes, probabilities, fl)
  {
    if |outcomes| != |probabilities| { return Some(LengthMismatch); }
    if |outcomes| == 0 { return Some(NoOutcomes); }
    var i := 1;
    while i < |outcomes|
      invariant 1 <= i <= |outcomes| && forall j :: 1 <= j < i ==> outcomes[j - 1] < outcomes[j]
    {
      if outcomes[i] <= outcomes[i - 1] { return Some(NotIncreasing); }
      i := i + 1;
    }
    var total: Bits := 0;
    var k := 0;
    while k < |probabilities|
      invariant 0 <= k <= |probabilities|
      invariant total == RunningTotal(probabilities[..k], fl)
      invariant MassProblem(probabilities[..k]).None?
    {
      assert probabilities[..k + 1][..k] == probabilities[..k];
      var p := probabilities[k];
      if !Finite(p) {
        MassProblemStays(probabilities, k + 1);
        return Some(NotFinite);
      }
      if !Positive(p) {
        MassProblemStays(probabilities, k + 1);
        return Some(NotPositive);
      }
      total := fl.add(total, p);
      k := k + 1;
    }
    assert probabilities[..k] == probabilities;
    if !fl.nearOne(total) { return Some(BadSum); }
    problem := None;
  }

  /** A problem in a prefix is the problem of the whole. */
  lemma {:induction false} MassProblemStays(p: seq<Bits>, k: nat)
    requires k <= |p| && MassProblem(p[..k]).Some?
    ensures MassProblem(p) == MassProblem(p[..k])
  {
    if k < |p| {
      assert p[..|p| - 1][..k] == p[..k];
      MassProblemStays(p[..|p| - 1], k);
    } else {
      assert p[..k] == p;
    }
  }

  // ----- the layout

  const MAGIC: seq<Byte> := [78, 70, 80, 77]
  const VERSION := 1
  const HEADER_SIZE := 10
  const RECORD_SIZE := 16

  predicate Int64(o: int) { -TWO_TO_63 <= o < TWO_TO_63 }

  /** Two's complement. */
  function Unsigned(o: int): nat
    requires Int64(o)
  {
    if o >= 0 then o else o + TWO_TO_64
  }

  function Signed(u: nat): int
    requires u < TWO_TO_64
  {
    if u < TWO_TO_63 then u else u - TWO_TO_64
  }

  function Header(count: nat): (h: seq<Byte>)
    ensures |h| == HEADER_SIZE
  {
    MAGIC + ToBytes(VERSION, 2) + ToBytes(count, 4)
  }

  function Record(outcome: int, probability: Bits): (r: seq<Byte>)
    ensures |r| == RECORD_SIZE
  {
    if Int64(outcome) then ToBytes(Unsigned(outcome), 8) + ToBytes(probability, 8) else ToBytes(0, 16)
  }

  function Body(outcomes: seq<int>, probabilities: seq<Bits>, n: nat): (b: seq<Byte>)
    requires n <= |outcomes| == |probabilities|
    ensures |b| == RECORD_SIZE * n
  {
    if n == 0 then [] else Body(outcomes, probabilities, n - 1) + Record(outcomes[n - 1], probabilities[n - 1])
  }

  predicate AllInt64(outcomes: seq<int>) { forall i :: 0 <= i < |outcomes| ==> Int64(outcomes[i]) }

  function Encode(outcomes: seq<int>, probabilities: seq<Bits>, fl: Arithmetic): Encoded {
    match Validation(outcomes, probabilities, fl)
    case Some(problem) => Refused(problem)
    case None =>
      if !AllInt64(outcomes) then Refused(OutcomeRange)
      else if |outcomes| >= TWO_TO_32 then Refused(CountRange)
      else Payload(Header(|outcomes|) + Body(outcomes, probabilities, |outcomes|))
  }

  function OutcomeAt(payload: seq<Byte>, offset: nat): int
    requires offset + 8 <= |payload|
  {
    ToFromBytes(payload[offset..offset + 8]);
    Widths();
    Signed(FromBytes(payload[offset..offset + 8]))
  }

  function BitsAt(payload: seq<Byte>, offset: nat): Bits
    requires offset + 8 <= |payload|
  {
    ToFromBytes(payload[offset..offset + 8]);
    Widths();
    FromBytes(payload[offset..offset + 8])
  }

  function OutcomesOf(payload: seq<Byte>, n: nat): seq<int>
    requires |payload| == HEADER_SIZE + n * RECORD_SIZE
  {
    seq(n, k requires 0 <= k < n => OutcomeAt(payload, HEADER_SIZE + k * RECORD_SIZE))
  }

  function BitsOf(payload: seq<Byte>, n: nat): seq<Bits>
    requires |payload| == HEADER_SIZE + n * RECORD_SIZE
  {
    seq(n, k requires 0 <= k < n => BitsAt(payload, HEADER_SIZE + k * RECORD_SIZE + 8))
  }

  function CountOf(payload: seq<Byte>): nat
    requires |payload| >= HEADER_SIZE
  {
    FromBytes(payload[6..10])
  }

  function Decode(payload: seq<Byte>, fl: Arithmetic): Decoded {
    if |payload| < HEADER_SIZE then Rejected(TooShort)
    else if payload[..4] != MAGIC then Rejected(BadMagic)
    else if FromBytes(payload[4..6]) != VERSION then Rejected(BadVersion)
    else if |payload| != HEADER_SIZE + CountOf(payload) * RECORD_SIZE then Rejected(BadLength)
    else
      var n := CountOf(payload);
      match Validation(OutcomesOf(payload, n), BitsOf(payload, n), fl)
      case Some(problem) => Rejected(problem)
      case None => Pairs(OutcomesOf(payload, n), BitsOf(payload, n))
  }

  // ----- the two directions, as they are carried out

  method PackRecord(body: array<Byte>, offset: nat, outcome: int, probability: Bits)
    requires Int64(outcome) && offset + RECORD_SIZE <= body.Length
    modifies body
    ensures body[..offset] == old(body[..offset])
    ensures body[offset..offset + RECORD_SIZE] == Record(outcome, probability)
  {
    var record := Record(outcome, probability);
    for i := 0 to RECORD_SIZE
      invariant body[..offset] == old(body[..offset])
      invariant forall j :: 0 <= j < i ==> body[offset + j] == record[j]
    {
      body[offset + i] := record[i];
    }
  }

  lemma ValidationLength(outcomes: seq<int>, probabilities: seq<Bits>, fl: Arithmetic)
    requires Validation(outcomes, probabilities, fl).None?
    ensures |outcomes| == |probabilities| > 0
  {
  }

  method EncodePmf(outcomes: seq<int>, probabilities: seq<Bits>, fl: Arithmetic) returns (r: Encoded)
    ensures r == Encode(outcomes, probabilities, fl)
  {
    hide FromBytes, ToBytes, Pow256, Validation, Record, Header;
    var problem := ValidatePmfSequence(outcomes, probabilities, fl);
    if problem.Some? { return Refused(problem.value); }
    ValidationLength(outcomes, probabilities, fl);
    var body := new Byte[RECORD_SIZE * |outcomes|](_ => 0);
    var offset, k := 0, 0;
    while k < |outcomes|
      invariant 0 <= k <= |outcomes| && offset == RECORD_SIZE * k && body.Length == RECORD_SIZE * |outcomes|
      invariant forall j :: 0 <= j < k ==> Int64(outcomes[j])
      invariant body[..offset] == Body(outcomes, probabilities, k)
    {
      if !Int64(outcomes[k]) { return Refused(OutcomeRange); }
      PackRecord(body, offset, outcomes[k], probabilities[k]);
      assert body[..offset + RECORD_SIZE] == body[..offset] + body[offset..offset + RECORD_SIZE];
      offset, k := offset + RECORD_SIZE, k + 1;
    }
    if |outcomes| >= TWO_TO_32 { return Refused(CountRange); }
    assert body[..] == body[..offset];
    r := Payload(Header(|outcomes|) + body[..]);
  }

  method DecodePmf(payload: seq<Byte>, fl: Arithmetic) returns (r: Decoded)
    ensures r == Decode(payload, fl)
  {
    hide FromBytes, Validation, OutcomeAt, BitsAt;
    if |payload| < HEADER_SIZE { return Rejected(TooShort); }
    var magic, version, count := payload[..4], FromBytes(payload[4..6]), CountOf(payload);
    if magic != MAGIC { return Rejected(BadMagic); }
    if version != VERSION { return Rejected(BadVersion); }
    if |payload| != HEADER_SIZE + count * RECORD_SIZE { return Rejected(BadLength); }
    var outcomes: seq<int>, probabilities: seq<Bits> := [], [];
    var offset, k := HEADER_SIZE, 0;
    while k < count
      invariant 0 <= k <= count && offset == HEADER_SIZE + k * RECORD_SIZE
      invariant outcomes == OutcomesOf(payload, count)[..k] && probabilities == BitsOf(payload, count)[..k]
    {
      outcomes := outcomes + [OutcomeAt(payload, offset)];
      probabilities := probabilities + [BitsAt(payload, offset + 8)];
      offset, k := offset + RECORD_SIZE, k + 1;
    }
    assert outcomes == OutcomesOf(payload, count) && probabilities == BitsOf(payload, count);
    var problem := ValidatePmfSequence(outcomes, probabilities, fl);
    if problem.Some? { return Rejected(problem.value); }
    r := Pairs(outcomes, probabilities);
  }

  // ----- round trips

  lemma HeaderDecodes(payload: seq<Byte>, count: nat)
    requires |payload| >= HEADER_SIZE && payload[..HEADER_SIZE] == Header(count) && count < TWO_TO_32
    ensures payload[..4] == MAGIC && FromBytes(payload[4..6]) == VERSION && CountOf(payload) == count
  {
    hide FromBytes, ToBytes, Pow256;
    Widths();
    var h := payload[..HEADER_SIZE];
    assert payload[..4] == h[..4] && payload[4..6] == h[4..6] && payload[6..10] == h[6..10];
    assert h[..4] == MAGIC && h[4..6] == ToBytes(VERSION, 2) && h[6..10] == ToBytes(count, 4);
    FromToBytes(VERSION, 2);
    FromToBytes(count, 4);
  }

  lemma HeaderEncodes(payload: seq<Byte>)
    requires |payload| >= HEADER_SIZE && payload[..4] == MAGIC && FromBytes(payload[4..6]) == VERSION
    ensures payload[..HEADER_SIZE] == Header(CountOf(payload)) && CountOf(payload) < TWO_TO_32
  {
    hide FromBytes, ToBytes, Pow256;
    Widths();
    ToFromBytes(payload[4..6]);
    ToFromBytes(payload[6..10]);
    assert payload[..HEADER_SIZE] == payload[..4] + payload[4..6] + payload[6..10];
  }

  lemma RecordDecodes(payload: seq<Byte>, offset: nat, outcome: int, probability: Bits)
    requires Int64(outcome) && offset + RECORD_SIZE <= |payload|
    requires payload[offset..offset + RECORD_SIZE] == Record(outcome, probability)
    ensures OutcomeAt(payload, offset) == outcome && BitsAt(payload, offset + 8) == probability
  {
    hide FromBytes, ToBytes, Pow256;
    Widths();
    var r := payload[offset..offset + RECORD_SIZE];
    assert payload[offset..offset + 8] == r[..8] && payload[offset + 8..offset + 16] == r[8..];
    assert r[..8] == ToBytes(Unsigned(outcome), 8) && r[8..] == ToBytes(probability, 8);
    FromToBytes(Unsigned(outcome), 8);
    FromToBytes(probability, 8);
  }

  lemma RecordEncodes(payload: seq<Byte>, offset: nat)
    requires offset + RECORD_SIZE <= |payload|
    ensures Int64(OutcomeAt(payload, offset))
    ensures Record(OutcomeAt(payload, offset), BitsAt(payload, offset + 8)) == payload[offset..offset + RECORD_SIZE]
  {
    hide FromBytes, ToBytes, Pow256;
    Widths();
    var low, high := payload[offset..offset + 8], payload[offset + 8..offset + 16];
    ToFromBytes(low);
    ToFromBytes(high);
    assert payload[offset..offset + RECORD_SIZE] == low + high;
  }

  lemma {:induction false} BodyAt(outcomes: seq<int>, probabilities: seq<Bits>, n: nat, k: nat)
    requires k < n <= |outcomes| == |probabilities|
    ensures Body(outcomes, probabilities, n)[k * RECORD_SIZE..(k + 1) * RECORD_SIZE] == Record(outcomes[k], probabilities[k])
  {
    hide Record;
    var b, last := Body(outcomes, probabilities, n - 1), Record(outcomes[n - 1], probabilities[n - 1]);
    if k < n - 1 {
      BodyAt(outcomes, probabilities, n - 1, k);
      SliceOfPrefix(b, last, k * RECORD_SIZE, (k + 1) * RECORD_SIZE);
    } else {
      SliceOfSuffix(b, last);
    }
  }

  lemma SliceOfPrefix(b: seq<Byte>, more: seq<Byte>, lo: nat, hi: nat)
    requires lo <= hi <= |b|
    ensures (b + more)[lo..hi] == b[lo..hi]
  {
  }

  lemma SliceOfSuffix(b: seq<Byte>, more: seq<Byte>)
    ensures (b + more)[|b|..|b| + |more|] == more
  {
  }

  /** A valid sequence is encoded exactly when its outcomes fit 64 signed bits
      and its length fits 32 bits; nothing invalid ever is. */
  lemma EncodesExactly(outcomes: seq<int>, probabilities: seq<Bits>, fl: Arithmetic)
    ensures Encode(outcomes, probabilities, fl).Payload?
            <==> Valid(outcomes, probabilities, fl) && AllInt64(outcomes) && |outcomes| < TWO_TO_32
  {
    ValidExactly(outcomes, probabilities, fl);
  }

  /** Decoding gives back every encoded sequence, bit for bit. */
  lemma DecodeInvertsEncode(outcomes: seq<int>, probabilities: seq<Bits>, fl: Arithmetic)
    requires Encode(outcomes, probabilities, fl).Payload?
    ensures Decode(Encode(outcomes, probabilities, fl).bytes, fl) == Pairs(outcomes, probabilities)
  {
    hide FromBytes, ToBytes, Pow256, Validation, Body, Header, Record, OutcomeAt, BitsAt, CountOf;
    var payload, n := Encode(outcomes, probabilities, fl).bytes, |outcomes|;
    EncodesExactly(outcomes, probabilities, fl);
    HeaderFirst(Header(n), Body(outcomes, probabilities, n));
    HeaderDecodes(payload, n);
    forall k | 0 <= k < n
      ensures OutcomeAt(payload, HEADER_SIZE + k * RECORD_SIZE) == outcomes[k]
      ensures BitsAt(payload, HEADER_SIZE + k * RECORD_SIZE + 8) == probabilities[k]
    {
      PayloadRecord(outcomes, probabilities, payload, k);
    }
    assert OutcomesOf(payload, n) == outcomes && BitsOf(payload, n) == probabilities;
  }

  lemma HeaderFirst(h: seq<Byte>, b: seq<Byte>)
    ensures (h + b)[..|h|] == h
  {
  }

  lemma PayloadRecord(outcomes: seq<int>, probabilities: seq<Bits>, payload: seq<Byte>, k: nat)
    requires k < |outcomes| == |probabilities| && AllInt64(outcomes)
    requires payload == Header(|outcomes|) + Body(outcomes, probabilities, |outcomes|)
    ensures HEADER_SIZE + k * RECORD_SIZE + 16 <= |payload|
    ensures OutcomeAt(payload, HEADER_SIZE + k * RECORD_SIZE) == outcomes[k]
    ensures BitsAt(payload, HEADER_SIZE + k * RECORD_SIZE + 8) == probabilities[k]
  {
    hide FromBytes, ToBytes, Pow256, Record, OutcomeAt, BitsAt, Header, Body;
    var n, b := |outcomes|, Body(outcomes, probabilities, |outcomes|);
    var offset := HEADER_SIZE + k * RECORD_SIZE;
    BodyAt(outcomes, probabilities, n, k);
    assert payload[offset..offset + RECORD_SIZE] == b[k * RECORD_SIZE..(k + 1) * RECORD_SIZE];
    RecordDecodes(payload, offset, outcomes[k], probabilities[k]);
  }

  lemma {:induction false} BodyRebuilt(payload: seq<Byte>, n: nat, k: nat)
    requires |payload| == HEADER_SIZE + n * RECORD_SIZE && k <= n
    ensures Body(OutcomesOf(payload, n), BitsOf(payload, n), k) == payload[HEADER_SIZE..HEADER_SIZE + k * RECORD_SIZE]
  {
    hide FromBytes, ToBytes, Pow256, Record, OutcomeAt, BitsAt;
    if k > 0 {
      BodyRebuilt(payload, n, k - 1);
      var offset := HEADER_SIZE + (k - 1) * RECORD_SIZE;
      RecordEncodes(payload, offset);
      assert payload[HEADER_SIZE..offset + RECORD_SIZE] == payload[HEADER_SIZE..offset] + payload[offset..offset + RECORD_SIZE];
    }
  }

  /** Encoding gives back every accepted payload, byte for byte. */
  lemma EncodeInvertsDecode(payload: seq<Byte>, fl: Arithmetic)
    requires Decode(payload, fl).Pairs?
    ensures Encode(Decode(payload, fl).outcomes, Decode(payload, fl).probabilities, fl) == Payload(payload)
  {
    hide FromBytes, ToBytes, Pow256, Validation, Body, Header, Record, OutcomeAt, BitsAt, CountOf;
    var n := CountOf(payload);
    HeaderEncodes(payload);
    BodyRebuilt(payload, n, n);
    forall k | 0 <= k < n ensures Int64(OutcomesOf(payload, n)[k]) { RecordEncodes(payload, HEADER_SIZE + k * RECORD_SIZE); }
    assert payload == payload[..HEADER_SIZE] + payload[HEADER_SIZE..HEADER_SIZE + n * RECORD_SIZE];
  }

  /** Cutting bytes off an accepted payload, or adding any, is always rejected. */
  lemma AcceptedPayloadsArePrefixFree(a: seq<Byte>, b: seq<Byte>, fl: Arithmetic)
    requires a <= b && Decode(a, fl).Pairs? && Decode(b, fl).Pairs?
    ensures a == b
  {
    hide FromBytes, Validation;
    assert a[6..10] == b[6..10];
  }

  /** Accepted payloads and encodable sequences correspond one to one. */
  lemma PayloadsAndSequencesCorrespond(a: seq<Byte>, b: seq<Byte>, fl: Arithmetic)
    requires Decode(a, fl).Pairs? && Decode(b, fl).Pairs?
    ensures Decode(a, fl) == Decode(b, fl) <==> a == b
    ensures Valid(Decode(a, fl).outcomes, Decode(a, fl).probabilities, fl)
  {
    EncodeInvertsDecode(a, fl);
    EncodeInvertsDecode(b, fl);
    EncodesExactly(Decode(a, fl).outcomes, Decode(a, fl).probabilities, fl);
  }

  // ----- the layout, byte by byte

  function Word(b: seq<Byte>, at: nat): nat
    requires at + 4 <= |b|
  {
    (b[at] as int) * 0x100_0000 + (b[at + 1] as int) * 0x1_0000 + (b[at + 2] as int) * 0x100 + b[at + 3] as int
  }

  function DoubleWord(b: seq<Byte>, at: nat): nat
    requires at + 8 <= |b|
  {
    Word(b, at) * 0x1_0000_0000 + Word(b, at + 4)
  }

  lemma WordIs(b: seq<Byte>, at: nat)
    requires at + 4 <= |b|
    ensures FromBytes(b[at..at + 4]) == Word(b, at)
  {
    assert b[at..at + 4] == [b[at], b[at + 1], b[at + 2], b[at + 3]];
    FourBytes(b[at], b[at + 1], b[at + 2], b[at + 3]);
  }

  lemma DoubleWordIs(b: seq<Byte>, at: nat)
    requires at + 8 <= |b|
    ensures FromBytes(b[at..at + 8]) == DoubleWord(b, at)
  {
    hide FromBytes;
    EightBytes(b[at..at + 8]);
    assert b[at..at + 8][..4] == b[at..at + 4] && b[at..at + 8][4..] == b[at + 4..at + 8];
    WordIs(b, at);
    WordIs(b, at + 4);
  }

  /** An encoded sequence starts with "NFPM" and version 1, then its length, most
      significant byte first; and for each pair the outcome in two's complement
      and the 64 bits of the probability. */
  lemma LayoutIs(outcomes: seq<int>, probabilities: seq<Bits>, fl: Arithmetic, k: nat)
    requires Encode(outcomes, probabilities, fl).Payload? && k < |outcomes|
    ensures var b, at := Encode(outcomes, probabilities, fl).bytes, 10 + 16 * k;
            && |b| == 10 + 16 * |outcomes| && |probabilities| == |outcomes|
            && b[..6] == [78, 70, 80, 77, 0, 1] && Word(b, 6) == |outcomes|
            && outcomes[k] == (if b[at] >= 128 then DoubleWord(b, at) - 0x1_0000_0000_0000_0000 else DoubleWord(b, at))
            && probabilities[k] == DoubleWord(b, at + 8)
  {
    hide FromBytes, ToBytes, Pow256, Validation, Body, Header, Record, OutcomeAt, BitsAt, CountOf, DoubleWord, Word;
    var b, n, at := Encode(outcomes, probabilities, fl).bytes, |outcomes|, 10 + 16 * k;
    EncodesExactly(outcomes, probabilities, fl);
    HeaderFirst(Header(n), Body(outcomes, probabilities, n));
    HeaderIs(b, n);
    PayloadRecord(outcomes, probabilities, b, k);
    OutcomeIs(b, at);
    BitsIs(b, at + 8);
  }

  lemma HeaderIs(b: seq<Byte>, n: nat)
    requires |b| >= HEADER_SIZE && b[..HEADER_SIZE] == Header(n) && n < TWO_TO_32
    ensures b[..6] == [78, 70, 80, 77, 0, 1] && Word(b, 6) == n
  {
    HeaderDecodes(b, n);
    WordIs(b, 6);
    assert b[..HEADER_SIZE][..6] == b[..6];
    assert ToBytes(1, 2) == ToBytes(0, 1) + [1] && ToBytes(0, 1) == ToBytes(0, 0) + [0];
    assert (MAGIC + ToBytes(VERSION, 2) + ToBytes(n, 4))[..6] == MAGIC + ToBytes(VERSION, 2);
  }

  lemma OutcomeIs(b: seq<Byte>, at: nat)
    requires at + 8 <= |b|
    ensures OutcomeAt(b, at) == if b[at] >= 128 then DoubleWord(b, at) - 0x1_0000_0000_0000_0000 else DoubleWord(b, at)
  {
    hide FromBytes;
    DoubleWordIs(b, at);
  }

  lemma BitsIs(b: seq<Byte>, at: nat)
    requires at + 8 <= |b|
    ensures BitsAt(b, at) == DoubleWord(b, at)
  {
    hide FromBytes;
    DoubleWordIs(b, at);
  }
}

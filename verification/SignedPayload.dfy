/** The 17-field payload signed for a disaster event, its contract, its BCS bytes, and the preimage of
    its event uid (schemas/examples/verify_golden_vectors.py). */
module SignedPayload {
  import opened Prelude
  import opened FieldCodec
  import Hex
  import Utf8

  datatype Payload = Payload(
    intent: int,
    oracleVersion: int,
    eventUid: string,
    eventRevision: int,
    sourceEventId: string,
    title: string,
    region: string,
    occurredAtMs: int,
    hazardType: int,
    status: int,
    severityBand: int,
    affectedCellsRoot: string,
    affectedCellCount: int,
    evidenceManifestUri: string,
    evidenceManifestHash: string,
    verifiedAtMs: int,
    freshnessDeadlineMs: int)

  const FRESHNESS_WINDOW_MS := 21_600_000

  function TextBytes(s: string): Bytes {
    Utf8.Encode(Utf8.Scalars(s))
  }

  predicate TextLength(s: string, minimum: nat, maximum: nat) {
    minimum <= |TextBytes(s)| <= maximum
  }

  predicate HashesParse(p: Payload) {
    && Hex.HexBytes(p.eventUid).Some?
    && Hex.HexBytes(p.affectedCellsRoot).Some?
    && Hex.HexBytes(p.evidenceManifestHash).Some?
  }

  /** `validate_payload_contract`. */
  predicate ContractValid(p: Payload) {
    && HashesParse(p)
    && p.intent == 1 && p.oracleVersion == 1 && p.hazardType == 1 && p.status == 3
    && 1 <= p.eventRevision < 0x1_0000_0000
    && TextLength(p.sourceEventId, 1, 96)
    && TextLength(p.title, 1, 160)
    && TextLength(p.region, 1, 160)
    && 1 <= p.severityBand <= 3
    && TextLength(p.evidenceManifestUri, 1, 512)
    && 1 <= p.affectedCellCount <= 1_000_000
    && 0 <= p.occurredAtMs < 0x1_0000_0000_0000_0000
    && 0 <= p.verifiedAtMs < 0x1_0000_0000_0000_0000
    && 0 <= p.freshnessDeadlineMs < 0x1_0000_0000_0000_0000
    && p.freshnessDeadlineMs == p.verifiedAtMs + FRESHNESS_WINDOW_MS
  }

  // ----- Encoding --------------------------------------------------------------------------

  /** Where `struct.pack` and `bytes.fromhex` do not raise. */
  predicate Packable(p: Payload) {
    && HashesParse(p)
    && 0 <= p.intent < Pow256(1) && 0 <= p.oracleVersion < Pow256(8)
    && 0 <= p.eventRevision < Pow256(4) && 0 <= p.occurredAtMs < Pow256(8)
    && 0 <= p.hazardType < Pow256(1) && 0 <= p.status < Pow256(1) && 0 <= p.severityBand < Pow256(1)
    && 0 <= p.affectedCellCount < Pow256(8)
    && 0 <= p.verifiedAtMs < Pow256(8) && 0 <= p.freshnessDeadlineMs < Pow256(8)
  }

  function Fields(p: Payload): seq<Field>
    requires Packable(p)
  {
    [ Uint(1, p.intent),
      Uint(8, p.oracleVersion),
      Raw(Hex.HexBytes(p.eventUid).value),
      Uint(4, p.eventRevision),
      UlebVector(TextBytes(p.sourceEventId)),
      UlebVector(TextBytes(p.title)),
      UlebVector(TextBytes(p.region)),
      Uint(8, p.occurredAtMs),
      Uint(1, p.hazardType),
      Uint(1, p.status),
      Uint(1, p.severityBand),
      Raw(Hex.HexBytes(p.affectedCellsRoot).value),
      Uint(8, p.affectedCellCount),
      UlebVector(TextBytes(p.evidenceManifestUri)),
      Raw(Hex.HexBytes(p.evidenceManifestHash).value),
      Uint(8, p.verifiedAtMs),
      Uint(8, p.freshnessDeadlineMs) ]
  }

  /** `payload_bcs`, before its bytes are printed as hex. */
  function PayloadBcs(p: Payload): Option<Bytes> {
    if Packable(p) then Some(Encode(Fields(p))) else None
  }

  lemma ContractValidIsPackable(p: Payload)
    requires ContractValid(p)
    ensures Packable(p)
  {
    assert Pow256(1) == 0x100 && Pow256(4) == 0x1_0000_0000 && Pow256(8) == 0x1_0000_0000_0000_0000;
  }

  // ----- Decoding --------------------------------------------------------------------------

  const PAYLOAD_KINDS: seq<Kind> :=
    [ UintKind(1), UintKind(8), RawKind(32), UintKind(4), UlebVectorKind, UlebVectorKind, UlebVectorKind,
      UintKind(8), UintKind(1), UintKind(1), UintKind(1), RawKind(32), UintKind(8), UlebVectorKind, RawKind(32),
      UintKind(8), UintKind(8) ]

  function DecodeText(bytes: Bytes): Option<string> {
    match Utf8.Decode(bytes)
    case None => None
    case Some(text) => Some(Utf8.FromScalars(text))
  }

  function UintOf(f: Field): nat {
    match f case Uint(_, value) => value case _ => 0
  }

  function BytesOf(f: Field): Bytes {
    match f case Uint(_, _) => [] case Raw(b) => b case UlebVector(b) => b case U32Vector(b) => b
  }

  function FromFields(f: seq<Field>): Option<Payload>
    requires |f| == 17
  {
    var sourceEventId, title, region, uri :=
      DecodeText(BytesOf(f[4])), DecodeText(BytesOf(f[5])), DecodeText(BytesOf(f[6])), DecodeText(BytesOf(f[13]));
    if sourceEventId.None? || title.None? || region.None? || uri.None? then None
    else Some(Payload(UintOf(f[0]), UintOf(f[1]), Hex.Prefixed(BytesOf(f[2])), UintOf(f[3]), sourceEventId.value,
                      title.value, region.value, UintOf(f[7]), UintOf(f[8]), UintOf(f[9]), UintOf(f[10]),
                      Hex.Prefixed(BytesOf(f[11])), UintOf(f[12]), uri.value, Hex.Prefixed(BytesOf(f[14])),
                      UintOf(f[15]), UintOf(f[16])))
  }

  function DecodePayload(b: Bytes): Option<Payload> {
    match Decode(PAYLOAD_KINDS, b)
    case Some((fields, rest)) => if |fields| == 17 && rest == [] then FromFields(fields) else None
    case None => None
  }

  // ----- Unique decodability ---------------------------------------------------------------

  function LowerHashes(p: Payload): Payload {
    p.(eventUid := Hex.Lower(p.eventUid),
       affectedCellsRoot := Hex.Lower(p.affectedCellsRoot),
       evidenceManifestHash := Hex.Lower(p.evidenceManifestHash))
  }

  /** Nothing but hex digits after the prefixes: what a caller can check on the three texts. */
  predicate PlainHashes(p: Payload) {
    Hex.IsPlainHash(p.eventUid) && Hex.IsPlainHash(p.affectedCellsRoot) && Hex.IsPlainHash(p.evidenceManifestHash)
  }

  lemma PlainHashRoundTrip(value: string)
    requires Hex.IsPlainHash(value)
    ensures Hex.HexBytes(value).Some? && |Hex.HexBytes(value).value| == 32
    ensures Hex.Prefixed(Hex.HexBytes(value).value) == Hex.Lower(value)
  {
    Hex.PrintOfFromHex(value[2..]);
    assert Hex.Lower(value) == "0x" + Hex.Lower(value[2..]);
  }

  lemma LowerOfHashIsPlain(value: string, bytes: Bytes)
    requires Hex.Lower(value) == Hex.Prefixed(bytes) && Hex.HexBytes(value).Some?
    ensures Hex.IsPlainHash(value)
  {
    forall i | 2 <= i < 66 ensures Hex.IsHexDigit(value[i]) {
      assert Hex.LowerChar(value[i]) == Hex.Lower(value)[i] == Hex.Print(bytes)[i - 2];
    }
    assert forall i :: 0 <= i < 64 ==> value[2..][i] == value[i + 2];
  }

  lemma TextRoundTrip(s: string)
    ensures DecodeText(TextBytes(s)) == Some(s)
  {
    Utf8.DecodeOfEncode(Utf8.Scalars(s));
    Utf8.FromScalarsOfScalars(s);
  }

  lemma PlainSizes(p: Payload)
    requires PlainHashes(p)
    ensures HashesParse(p) && |Hex.HexBytes(p.eventUid).value| == 32
    ensures |Hex.HexBytes(p.affectedCellsRoot).value| == 32 && |Hex.HexBytes(p.evidenceManifestHash).value| == 32
  {
    PlainHashRoundTrip(p.eventUid);
    PlainHashRoundTrip(p.affectedCellsRoot);
    PlainHashRoundTrip(p.evidenceManifestHash);
  }

  lemma FieldsInRange(p: Payload)
    requires Packable(p)
    ensures AllInRange(Fields(p))
  {
  }

  lemma FieldsFitLayout(p: Payload)
    requires Packable(p) && PlainHashes(p)
    ensures KindsOf(Fields(p)) == PAYLOAD_KINDS && AllInRange(Fields(p))
  {
    PlainSizes(p);
    FieldsInRange(p);
  }

  lemma FromFieldsOfFields(p: Payload)
    requires Packable(p) && PlainHashes(p)
    ensures FromFields(Fields(p)) == Some(LowerHashes(p))
  {
    PlainHashRoundTrip(p.eventUid);
    PlainHashRoundTrip(p.affectedCellsRoot);
    PlainHashRoundTrip(p.evidenceManifestHash);
    TextRoundTrip(p.sourceEventId);
    TextRoundTrip(p.title);
    TextRoundTrip(p.region);
    TextRoundTrip(p.evidenceManifestUri);
  }

  lemma PlainPayloadDecodes(p: Payload)
    requires ContractValid(p) && PlainHashes(p)
    ensures Packable(p) && DecodePayload(PayloadBcs(p).value) == Some(LowerHashes(p))
  {
    ContractValidIsPackable(p);
    FieldsFitLayout(p);
    FromFieldsOfFields(p);
    DecodeOfEncode(Fields(p), []);
    assert Encode(Fields(p)) + [] == Encode(Fields(p));
  }

  /** The signed bytes of a contract-valid payload decode back to it, up to the letter case of its
      hashes, exactly when its hash texts are plain. */
  lemma PayloadDecodesIffPlain(p: Payload)
    requires ContractValid(p)
    ensures Packable(p)
    ensures DecodePayload(PayloadBcs(p).value) == Some(LowerHashes(p)) <==> PlainHashes(p)
  {
    ContractValidIsPackable(p);
    if PlainHashes(p) {
      PlainPayloadDecodes(p);
    } else if DecodePayload(PayloadBcs(p).value) == Some(LowerHashes(p)) {
      var fields := Decode(PAYLOAD_KINDS, PayloadBcs(p).value).value.0;
      LowerOfHashIsPlain(p.eventUid, BytesOf(fields[2]));
      LowerOfHashIsPlain(p.affectedCellsRoot, BytesOf(fields[11]));
      LowerOfHashIsPlain(p.evidenceManifestHash, BytesOf(fields[14]));
    }
  }

  /** Two contract-valid payloads with plain hashes are signed as the same bytes exactly when they
      differ at most in the letter case of their hashes. */
  lemma PayloadBytesUnique(p: Payload, q: Payload)
    requires ContractValid(p) && ContractValid(q) && PlainHashes(p) && PlainHashes(q)
    ensures PayloadBcs(p) == PayloadBcs(q) <==> LowerHashes(p) == LowerHashes(q)
  {
    PlainPayloadDecodes(p);
    PlainPayloadDecodes(q);
    if LowerHashes(p) == LowerHashes(q) {
      PlainHashRoundTrip(p.eventUid);
      PlainHashRoundTrip(q.eventUid);
      Hex.PrefixedInjective(Hex.HexBytes(p.eventUid).value, Hex.HexBytes(q.eventUid).value);
      PlainHashRoundTrip(p.affectedCellsRoot);
      PlainHashRoundTrip(q.affectedCellsRoot);
      Hex.PrefixedInjective(Hex.HexBytes(p.affectedCellsRoot).value, Hex.HexBytes(q.affectedCellsRoot).value);
      PlainHashRoundTrip(p.evidenceManifestHash);
      PlainHashRoundTrip(q.evidenceManifestHash);
      Hex.PrefixedInjective(Hex.HexBytes(p.evidenceManifestHash).value, Hex.HexBytes(q.evidenceManifestHash).value);
      assert Fields(p) == Fields(q);
    }
  }

  function Spaces(n: nat): (s: string)
    ensures |s| == n && forall i :: 0 <= i < n ==> s[i] == ' '
  {
    if n == 0 then "" else [' '] + Spaces(n - 1)
  }

  lemma {:induction false} SpacesAreSkipped(n: nat, s: string)
    ensures Hex.FromHex(Spaces(n) + s) == Hex.FromHex(s)
    decreases n
  {
    if n == 0 {
      assert Spaces(0) + s == s;
    } else {
      assert (Spaces(n) + s)[1..] == Spaces(n - 1) + s;
      SpacesAreSkipped(n - 1, s);
    }
  }

  /** The contract alone does not make the bytes unique: its hash test measures the text while `bytes.fromhex`
      skips blanks. Every contract-valid payload whose hash texts are not plain has a contract-valid twin with
      another blank in one of them, and the same signed bytes. */
  lemma BlankHashTwin(p: Payload) returns (q: Payload)
    requires ContractValid(p) && !PlainHashes(p)
    ensures ContractValid(q) && SameButHashes(p, q) && LowerHashes(q) != LowerHashes(p)
    ensures PayloadBcs(p).Some? && PayloadBcs(q) == PayloadBcs(p)
  {
    ContractValidIsPackable(p);
    if !Hex.IsPlainHash(p.eventUid) {
      var twin := Hex.BlankTwin(p.eventUid);
      q := p.(eventUid := twin);
    } else if !Hex.IsPlainHash(p.affectedCellsRoot) {
      var twin := Hex.BlankTwin(p.affectedCellsRoot);
      q := p.(affectedCellsRoot := twin);
    } else {
      var twin := Hex.BlankTwin(p.evidenceManifestHash);
      q := p.(evidenceManifestHash := twin);
    }
    ContractValidIsPackable(q);
    assert Fields(q) == Fields(p);
  }

  /** Two payloads that differ in their hash texts alone. */
  predicate SameButHashes(p: Payload, q: Payload) {
    q == p.(eventUid := q.eventUid,
            affectedCellsRoot := q.affectedCellsRoot,
            evidenceManifestHash := q.evidenceManifestHash)
  }

  predicate Twins(p: Payload, q: Payload) {
    ContractValid(q) && SameButHashes(p, q) && PayloadBcs(q) == PayloadBcs(p) && LowerHashes(q) != LowerHashes(p)
  }

  function HashSize(p: Payload): nat
    requires HashesParse(p)
  {
    |Hex.HexBytes(p.eventUid).value| + |Hex.HexBytes(p.affectedCellsRoot).value|
    + |Hex.HexBytes(p.evidenceManifestHash).value|
  }

  // The fields before, between and after the three hashes.

  function Head(p: Payload): seq<Field>
    requires Packable(p)
  {
    [Uint(1, p.intent), Uint(8, p.oracleVersion)]
  }

  function Texts(p: Payload): seq<Field>
    requires Packable(p)
  {
    [Uint(4, p.eventRevision), UlebVector(TextBytes(p.sourceEventId)), UlebVector(TextBytes(p.title)),
     UlebVector(TextBytes(p.region))]
  }

  function Class(p: Payload): seq<Field>
    requires Packable(p)
  {
    [Uint(8, p.occurredAtMs), Uint(1, p.hazardType), Uint(1, p.status), Uint(1, p.severityBand)]
  }

  function Evidence(p: Payload): seq<Field>
    requires Packable(p)
  {
    [Uint(8, p.affectedCellCount), UlebVector(TextBytes(p.evidenceManifestUri))]
  }

  function Times(p: Payload): seq<Field>
    requires Packable(p)
  {
    [Uint(8, p.verifiedAtMs), Uint(8, p.freshnessDeadlineMs)]
  }

  /** Everything from the class on. */
  function Tail(p: Payload): seq<Field>
    requires Packable(p)
  {
    Class(p) + ([Raw(Hex.HexBytes(p.affectedCellsRoot).value)]
                + (Evidence(p) + ([Raw(Hex.HexBytes(p.evidenceManifestHash).value)] + Times(p))))
  }

  lemma FieldsInParts(p: Payload)
    requires Packable(p)
    ensures Fields(p) == Head(p) + ([Raw(Hex.HexBytes(p.eventUid).value)] + (Texts(p) + Tail(p)))
  {
  }

  lemma AroundRaw(a: seq<Field>, raw: Bytes, b: seq<Field>)
    ensures |Encode(a + ([Raw(raw)] + b))| == |Encode(a)| + |raw| + |Encode(b)|
  {
    EncodeConcat(a, [Raw(raw)] + b);
    EncodeFirst(Raw(raw), b);
  }

  /** What the other fields take. */
  function OtherSize(p: Payload): nat
    requires Packable(p)
  {
    |Encode(Head(p))| + |Encode(Texts(p))| + |Encode(Class(p))| + |Encode(Evidence(p))| + |Encode(Times(p))|
  }

  lemma PayloadSize(p: Payload)
    requires Packable(p)
    ensures |Encode(Fields(p))| == OtherSize(p) + HashSize(p)
  {
    var uid, root, manifest := Hex.HexBytes(p.eventUid).value, Hex.HexBytes(p.affectedCellsRoot).value,
                               Hex.HexBytes(p.evidenceManifestHash).value;
    FieldsInParts(p);
    AroundRaw(Evidence(p), manifest, Times(p));
    AroundRaw(Class(p), root, Evidence(p) + ([Raw(manifest)] + Times(p)));
    EncodeConcat(Texts(p), Tail(p));
    AroundRaw(Head(p), uid, Texts(p) + Tail(p));
  }

  lemma SameOtherSize(p: Payload, q: Payload)
    requires Packable(p) && Packable(q) && SameButHashes(p, q)
    ensures OtherSize(p) == OtherSize(q)
  {
    assert Head(p) == Head(q) && Texts(p) == Texts(q) && Class(p) == Class(q);
    assert Evidence(p) == Evidence(q) && Times(p) == Times(q);
  }

  lemma FullHashes(p: Payload)
    requires HashesParse(p)
    ensures HashSize(p) <= 96 && (HashSize(p) == 96 <==> PlainHashes(p))
  {
    Hex.PlainIffFull(p.eventUid);
    Hex.PlainIffFull(p.affectedCellsRoot);
    Hex.PlainIffFull(p.evidenceManifestHash);
  }

  /** A twin of a payload with plain hashes would be plain too: together its hashes are just as long. */
  lemma TwinOfPlainIsPlain(p: Payload, q: Payload)
    requires ContractValid(p) && PlainHashes(p) && ContractValid(q) && SameButHashes(p, q)
    requires PayloadBcs(q) == PayloadBcs(p)
    ensures PlainHashes(q)
  {
    ContractValidIsPackable(p);
    ContractValidIsPackable(q);
    PayloadSize(p);
    PayloadSize(q);
    SameOtherSize(p, q);
    FullHashes(p);
    FullHashes(q);
  }

  /** Exactly the payloads whose hash texts are not plain share their bytes with another contract-valid payload
      that differs from them in hash texts alone, beyond letter case. */
  lemma TwinIffNotPlain(p: Payload)
    requires ContractValid(p)
    ensures (exists q :: Twins(p, q)) <==> !PlainHashes(p)
  {
    if !PlainHashes(p) {
      var q := BlankHashTwin(p);
      assert Twins(p, q);
    } else {
      forall q ensures !Twins(p, q) {
        if ContractValid(q) && SameButHashes(p, q) && PayloadBcs(q) == PayloadBcs(p) {
          TwinOfPlainIsPlain(p, q);
          PayloadBytesUnique(p, q);
        }
      }
    }
  }

  // ----- A plain payload and one that is not ---------------------------------------------------

  /** The text of ASCII bytes. */
  function Ascii(bytes: Bytes): (s: string)
    requires forall i :: 0 <= i < |bytes| ==> bytes[i] < 0x80
  {
    seq(|bytes|, i requires 0 <= i < |bytes| => bytes[i] as char)
  }

  lemma AsciiBytes(bytes: Bytes)
    requires forall i :: 0 <= i < |bytes| ==> bytes[i] < 0x80
    ensures TextBytes(Ascii(bytes)) == bytes
  {
    assert Utf8.Scalars(Ascii(bytes)) == bytes;
    Utf8.EncodeAscii(Utf8.Scalars(Ascii(bytes)));
  }

  const LETTER_A: Bytes := [0x61]
  const LETTER_FIELD: Bytes := [1, 0x61]
  const REVISION_ONE: Bytes := [1, 0, 0, 0]

  /** 23 letters. */
  function Filler(): (bytes: Bytes)
    ensures |bytes| == 23 && forall i :: 0 <= i < 23 ==> bytes[i] == 0x62
  {
    seq(23, _ => 0x62)
  }

  /** Revision one, two one-letter texts and the length of a third, then the letters: a hash that reads as the
      fields which would follow it. */
  function ShiftedUid(): (bytes: Bytes)
    ensures |bytes| == 32
  {
    REVISION_ONE + (LETTER_FIELD + (LETTER_FIELD + ([33] + Filler())))
  }

  /** The letters, then what the plain payload has where the other has its revision and first texts. */
  function ShiftedRegion(): (bytes: Bytes)
    ensures |bytes| == 33 && forall i :: 0 <= i < 33 ==> bytes[i] < 0x80
  {
    Filler() + (REVISION_ONE + (LETTER_FIELD + (LETTER_FIELD + LETTER_FIELD)))
  }

  /** The hash and the texts as they stand in the bytes. */
  function Shifting(uid: Bytes, region: Bytes): seq<Field> {
    [Raw(uid)] + ([Uint(4, 1)] + ([UlebVector(LETTER_A)] + ([UlebVector(LETTER_A)] + [UlebVector(region)])))
  }

  lemma ShiftingBytes(uid: Bytes, region: Bytes)
    requires |region| < 0x80
    ensures Encode(Shifting(uid, region))
            == uid + (REVISION_ONE + (LETTER_FIELD + (LETTER_FIELD + ([|region|] + region))))
  {
    assert LittleEndian(4, 1) == REVISION_ONE;
    assert Uleb128(1) == [1] && Uleb128(|region|) == [|region|] && [1] + LETTER_A == LETTER_FIELD;
    var last, letter := UlebVector(region), UlebVector(LETTER_A);
    EncodeOne(last);
    EncodeFirst(letter, [last]);
    EncodeFirst(letter, [letter] + [last]);
    EncodeFirst(Uint(4, 1), [letter] + ([letter] + [last]));
    EncodeFirst(Raw(uid), [Uint(4, 1)] + ([letter] + ([letter] + [last])));
  }

  /** The same bytes, cut before and after the letters. */
  lemma ShiftAlike(r: Bytes, a: Bytes, t: Bytes, f: Bytes)
    ensures (r + (a + (a + (t + f)))) + (r + (a + (a + a)))
            == [] + (r + (a + (a + (t + (f + (r + (a + (a + a))))))))
  {
  }

  lemma ShiftedSameBytes()
    ensures Encode(Shifting(ShiftedUid(), LETTER_A)) == Encode(Shifting([], ShiftedRegion()))
  {
    ShiftAlike(REVISION_ONE, LETTER_FIELD, [33], Filler());
    assert [1] + LETTER_A == LETTER_FIELD;
    ShiftingBytes(ShiftedUid(), LETTER_A);
    ShiftingBytes([], ShiftedRegion());
  }

  /** A valid payload with one-letter texts but for the region. */
  function Sample(uid: string, root: string, region: Bytes): Payload
    requires forall i :: 0 <= i < |region| ==> region[i] < 0x80
  {
    var a := Ascii(LETTER_A);
    Payload(1, 1, uid, 1, a, a, Ascii(region), 0, 1, 3, 1, root, 1, a, root, 0, FRESHNESS_WINDOW_MS)
  }

  lemma SampleIsValid(uid: string, root: string, region: Bytes)
    requires 1 <= |region| <= 160 && forall i :: 0 <= i < |region| ==> region[i] < 0x80
    requires Hex.HexBytes(uid).Some? && Hex.HexBytes(root).Some?
    ensures ContractValid(Sample(uid, root, region))
  {
    AsciiBytes(LETTER_A);
    AsciiBytes(region);
  }

  lemma SampleBytes(uid: string, root: string, region: Bytes)
    requires forall i :: 0 <= i < |region| ==> region[i] < 0x80
    requires Hex.HexBytes(uid).Some? && Packable(Sample(uid, root, region))
    ensures var p := Sample(uid, root, region);
            Encode(Fields(p)) == Encode(Head(p)) + (Encode(Shifting(Hex.HexBytes(uid).value, region)) + Encode(Tail(p)))
  {
    var p := Sample(uid, root, region);
    var raw := [Raw(Hex.HexBytes(uid).value)];
    AsciiBytes(LETTER_A);
    AsciiBytes(region);
    FieldsInParts(p);
    assert raw + (Texts(p) + Tail(p)) == Shifting(Hex.HexBytes(uid).value, region) + Tail(p);
    EncodeConcat(Shifting(Hex.HexBytes(uid).value, region), Tail(p));
    EncodeConcat(Head(p), raw + (Texts(p) + Tail(p)));
  }

  lemma SamplesCollide(hash: string, blank: string, region: Bytes, region': Bytes)
    requires forall i :: 0 <= i < |region| ==> region[i] < 0x80
    requires forall i :: 0 <= i < |region'| ==> region'[i] < 0x80
    requires 1 <= |region| <= 160 && 1 <= |region'| <= 160 && Hex.HexBytes(hash).Some? && Hex.HexBytes(blank).Some?
    requires Encode(Shifting(Hex.HexBytes(hash).value, region)) == Encode(Shifting(Hex.HexBytes(blank).value, region'))
    ensures ContractValid(Sample(hash, hash, region)) && ContractValid(Sample(blank, hash, region'))
    ensures PayloadBcs(Sample(hash, hash, region)).Some?
    ensures PayloadBcs(Sample(hash, hash, region)) == PayloadBcs(Sample(blank, hash, region'))
  {
    var p, q := Sample(hash, hash, region), Sample(blank, hash, region');
    SampleIsValid(hash, hash, region);
    SampleIsValid(blank, hash, region');
    ContractValidIsPackable(p);
    ContractValidIsPackable(q);
    SampleBytes(hash, hash, region);
    SampleBytes(blank, hash, region');
    assert Head(p) == Head(q) && Tail(p) == Tail(q);
  }

  lemma BlankHash() returns (blank: string)
    ensures Hex.HexBytes(blank) == Some([]) && !Hex.IsPlainHash(blank)
  {
    blank := "0x" + Spaces(64);
    SpacesAreSkipped(64, "");
    assert Spaces(64) + "" == Spaces(64) && blank[2..] == Spaces(64) && blank[2] == ' ';
  }

  /** Plain hash texts on one side are not enough: a payload whose hash texts are all plain has the same bytes as
      one with an empty event hash, whose region takes in what the first one has before its own. */
  lemma PlainAndBlankCollide() returns (p: Payload, q: Payload)
    ensures ContractValid(p) && PlainHashes(p) && ContractValid(q) && !PlainHashes(q)
    ensures PayloadBcs(p).Some? && PayloadBcs(p) == PayloadBcs(q)
    ensures p.eventUid != q.eventUid && |p.region| != |q.region|
  {
    var hash := Hex.Prefixed(ShiftedUid());
    var blank := BlankHash();
    Hex.PrintedHash(ShiftedUid());
    ShiftedSameBytes();
    SamplesCollide(hash, blank, LETTER_A, ShiftedRegion());
    p, q := Sample(hash, hash, LETTER_A), Sample(blank, hash, ShiftedRegion());
  }

  // ----- The event uid -----------------------------------------------------------------------

  function EventUidFields(domain: Bytes, hazardType: nat, source: string, sourceEventId: string, occurredAtMs: nat)
    : seq<Field>
  {
    [ Raw(domain),
      Uint(1, hazardType),
      U32Vector(TextBytes(source)),
      U32Vector(TextBytes(sourceEventId)),
      Uint(8, occurredAtMs) ]
  }

  /** The bytes `event_uid` hashes; `None` where `struct.pack` raises. */
  function EventUidPreimage(hazardType: nat, source: string, sourceEventId: string, occurredAtMs: nat): Option<Bytes> {
    var fields := EventUidFields(TextBytes("sonari:event_uid:v1"), hazardType, source, sourceEventId, occurredAtMs);
    if AllInRange(fields) then Some(Encode(fields)) else None
  }

  lemma TextBytesInjective(s: string, t: string)
    requires TextBytes(s) == TextBytes(t)
    ensures s == t
  {
    TextRoundTrip(s);
    TextRoundTrip(t);
  }

  lemma EventUidFieldsInjective(domain: Bytes, hazard: nat, source: string, id: string, at: nat,
                                hazard': nat, source': string, id': string, at': nat)
    requires AllInRange(EventUidFields(domain, hazard, source, id, at))
    requires AllInRange(EventUidFields(domain, hazard', source', id', at'))
    requires Encode(EventUidFields(domain, hazard, source, id, at)) ==
             Encode(EventUidFields(domain, hazard', source', id', at'))
    ensures hazard == hazard' && source == source' && id == id' && at == at'
  {
    var fields := EventUidFields(domain, hazard, source, id, at);
    var fields' := EventUidFields(domain, hazard', source', id', at');
    assert KindsOf(fields) == KindsOf(fields');
    EncodeInjective(fields, fields');
    assert fields[1] == fields'[1] && fields[2] == fields'[2] && fields[3] == fields'[3] && fields[4] == fields'[4];
    TextBytesInjective(source, source');
    TextBytesInjective(id, id');
  }

  /** Each of the four inputs can be read back from the preimage, so no two events share one. */
  lemma EventUidPreimageInjective(hazard: nat, source: string, id: string, at: nat,
                                  hazard': nat, source': string, id': string, at': nat)
    requires EventUidPreimage(hazard, source, id, at).Some?
    requires EventUidPreimage(hazard, source, id, at) == EventUidPreimage(hazard', source', id', at')
    ensures hazard == hazard' && source == source' && id == id' && at == at'
  {
    EventUidFieldsInjective(TextBytes("sonari:event_uid:v1"), hazard, source, id, at, hazard', source', id', at');
  }
}

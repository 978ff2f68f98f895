/** When a payload with plain hash texts is signed as the same bytes as another contract-valid payload: exactly if
    the bytes can be read with some hash shorter than 32 bytes, as one written with blanks is. */
module BlankHashes {
  import opened Prelude
  import opened FieldCodec
  import opened SignedPayload
  import Hex
  import Utf8

  // ----- Reading with shorter hashes --------------------------------------------------------------

  /** A hash text of the right length for fewer bytes: blanks, then digits. */
  function PaddedHash(bytes: Bytes): string
    requires |bytes| <= 32
  {
    "0x" + (Spaces(64 - 2 * |bytes|) + Hex.Print(bytes))
  }

  /** How many bytes the three hash texts stand for. */
  datatype Sizes = Sizes(uid: nat, root: nat, manifest: nat)

  const FULL := Sizes(32, 32, 32)

  predicate Fit(n: Sizes) {
    n.uid <= 32 && n.root <= 32 && n.manifest <= 32
  }

  function Layout(n: Sizes): seq<Kind> {
    PAYLOAD_KINDS[2 := RawKind(n.uid)][11 := RawKind(n.root)][14 := RawKind(n.manifest)]
  }

  function Padded(p: Payload, uid: Bytes, root: Bytes, manifest: Bytes): Payload
    requires |uid| <= 32 && |root| <= 32 && |manifest| <= 32
  {
    p.(eventUid := PaddedHash(uid), affectedCellsRoot := PaddedHash(root), evidenceManifestHash := PaddedHash(manifest))
  }

  /** The bytes read with hashes of these sizes. */
  function ReadWith(b: Bytes, n: Sizes): Option<Payload>
    requires Fit(n)
  {
    match Decode(Layout(n), b)
    case None => None
    case Some((f, rest)) =>
      if rest != [] || |f| != 17 || |BytesOf(f[2])| > 32 || |BytesOf(f[11])| > 32 || |BytesOf(f[14])| > 32 then None
      else
        match FromFields(f)
        case None => None
        case Some(p) => Some(Padded(p, BytesOf(f[2]), BytesOf(f[11]), BytesOf(f[14])))
  }

  predicate ReadsValid(b: Bytes, n: Sizes)
    requires Fit(n)
  {
    ReadWith(b, n).Some? && ContractValid(ReadWith(b, n).value)
  }

  /** Some hash is read short, and the result meets the contract: a search over 33 sizes for each of three hashes. */
  predicate ReadsShort(b: Bytes) {
    exists uid: nat, root: nat, manifest: nat | uid <= 32 && root <= 32 && manifest <= 32 ::
      Sizes(uid, root, manifest) != FULL && ReadsValid(b, Sizes(uid, root, manifest))
  }

  // ----- A payload with short hashes is found by the search ----------------------------------------

  lemma PaddedReads(bytes: Bytes)
    requires |bytes| <= 32
    ensures Hex.HexBytes(PaddedHash(bytes)) == Some(bytes)
  {
    var digits := Spaces(64 - 2 * |bytes|) + Hex.Print(bytes);
    assert PaddedHash(bytes)[2..] == digits && PaddedHash(bytes)[..2] == "0x";
    SpacesAreSkipped(64 - 2 * |bytes|, Hex.Print(bytes));
    Hex.FromHexOfPrint(bytes);
  }

  function SizesOf(p: Payload): Sizes
    requires HashesParse(p)
  {
    Sizes(|Hex.HexBytes(p.eventUid).value|, |Hex.HexBytes(p.affectedCellsRoot).value|,
          |Hex.HexBytes(p.evidenceManifestHash).value|)
  }

  lemma SizesFit(p: Payload)
    requires HashesParse(p)
    ensures Fit(SizesOf(p)) && (SizesOf(p) == FULL <==> PlainHashes(p))
  {
    Hex.PlainIffFull(p.eventUid);
    Hex.PlainIffFull(p.affectedCellsRoot);
    Hex.PlainIffFull(p.evidenceManifestHash);
  }

  lemma KindsOfFields(p: Payload)
    requires Packable(p)
    ensures KindsOf(Fields(p)) == Layout(SizesOf(p))
  {
  }

  lemma TextField(f: Field, text: string)
    requires f == UlebVector(TextBytes(text))
    ensures DecodeText(BytesOf(f)) == Some(text)
  {
    TextRoundTrip(text);
  }

  lemma TextsDecode(p: Payload)
    requires Packable(p)
    ensures var f := Fields(p);
            && DecodeText(BytesOf(f[4])) == Some(p.sourceEventId) && DecodeText(BytesOf(f[5])) == Some(p.title)
            && DecodeText(BytesOf(f[6])) == Some(p.region) && DecodeText(BytesOf(f[13])) == Some(p.evidenceManifestUri)
  {
    TextField(Fields(p)[4], p.sourceEventId);
    TextField(Fields(p)[5], p.title);
    TextField(Fields(p)[6], p.region);
    TextField(Fields(p)[13], p.evidenceManifestUri);
  }

  /** The payload its fields are read as, which differs in its hash texts alone. */
  lemma FieldsReadBack(p: Payload)
    requires Packable(p)
    ensures FromFields(Fields(p)).Some? && SameButHashes(p, FromFields(Fields(p)).value)
  {
    TextsDecode(p);
  }

  lemma OtherTextsValid(p: Payload, q: Payload)
    requires ContractValid(p) && SameButHashes(p, q) && HashesParse(q)
    ensures ContractValid(q)
  {
  }

  lemma PaddedParses(p: Payload, uid: Bytes, root: Bytes, manifest: Bytes)
    requires |uid| <= 32 && |root| <= 32 && |manifest| <= 32
    ensures HashesParse(Padded(p, uid, root, manifest))
    ensures SizesOf(Padded(p, uid, root, manifest)) == Sizes(|uid|, |root|, |manifest|)
  {
    PaddedReads(uid);
    PaddedReads(root);
    PaddedReads(manifest);
  }

  lemma OwnBytesDecode(p: Payload)
    requires Packable(p)
    ensures Decode(Layout(SizesOf(p)), Encode(Fields(p))) == Some((Fields(p), []))
  {
    KindsOfFields(p);
    FieldsInRange(p);
    DecodeOfEncode(Fields(p), []);
    assert Encode(Fields(p)) + [] == Encode(Fields(p));
  }

  /** Read with its own hashes, a payload differs in its hash texts alone. */
  function Repadded(p: Payload, q: Payload): Payload
    requires HashesParse(p) && Fit(SizesOf(p))
  {
    Padded(q, Hex.HexBytes(p.eventUid).value, Hex.HexBytes(p.affectedCellsRoot).value,
           Hex.HexBytes(p.evidenceManifestHash).value)
  }

  lemma OwnRead(p: Payload)
    requires Packable(p) && Fit(SizesOf(p)) && FromFields(Fields(p)).Some?
    ensures ReadWith(Encode(Fields(p)), SizesOf(p)) == Some(Repadded(p, FromFields(Fields(p)).value))
  {
    OwnBytesDecode(p);
  }

  /** A contract-valid payload is read back, valid, with the sizes of its own hashes. */
  lemma ReadsWithOwnSizes(p: Payload)
    requires ContractValid(p)
    ensures PayloadBcs(p).Some? && Fit(SizesOf(p)) && ReadsValid(PayloadBcs(p).value, SizesOf(p))
  {
    ContractValidIsPackable(p);
    SizesFit(p);
    FieldsReadBack(p);
    OwnRead(p);
    var q := FromFields(Fields(p)).value;
    PaddedParses(q, Hex.HexBytes(p.eventUid).value, Hex.HexBytes(p.affectedCellsRoot).value,
                 Hex.HexBytes(p.evidenceManifestHash).value);
    OtherTextsValid(p, Repadded(p, q));
  }

  // ----- What the search finds is a payload of those bytes ------------------------------------------

  lemma RawBack(f: Field, size: nat, text: string)
    requires KindOf(f) == RawKind(size) && size <= 32 && text == PaddedHash(BytesOf(f))
    ensures Hex.HexBytes(text).Some? && f == Raw(Hex.HexBytes(text).value) && |BytesOf(f)| == size
  {
    PaddedReads(BytesOf(f));
  }

  lemma TextBack(f: Field, text: string)
    requires KindOf(f) == UlebVectorKind && DecodeText(BytesOf(f)) == Some(text)
    ensures f == UlebVector(TextBytes(text))
  {
    var scalars := Utf8.Decode(BytesOf(f)).value;
    Utf8.EncodeOfDecode(BytesOf(f), scalars);
    Utf8.ScalarsOfFromScalars(scalars);
  }

  lemma KindAt(f: seq<Field>, kinds: seq<Kind>, i: nat)
    requires KindsOf(f) == kinds && i < |kinds|
    ensures i < |f| && KindOf(f[i]) == kinds[i]
  {
    assert KindsOf(f)[i] == KindOf(f[i]);
  }

  lemma UintAt(f: seq<Field>, kinds: seq<Kind>, i: nat, width: nat)
    requires KindsOf(f) == kinds && i < |kinds| && kinds[i] == UintKind(width)
    ensures i < |f| && f[i] == Uint(width, UintOf(f[i]))
  {
    KindAt(f, kinds, i);
  }

  lemma TextAt(f: seq<Field>, kinds: seq<Kind>, i: nat, text: string)
    requires KindsOf(f) == kinds && i < |kinds| && i < |f| && kinds[i] == UlebVectorKind
    requires DecodeText(BytesOf(f[i])) == Some(text)
    ensures f[i] == UlebVector(TextBytes(text))
  {
    KindAt(f, kinds, i);
    TextBack(f[i], text);
  }

  lemma LowUintsBack(f: seq<Field>, n: Sizes)
    requires KindsOf(f) == Layout(n)
    ensures |f| == 17 && f[0] == Uint(1, UintOf(f[0])) && f[1] == Uint(8, UintOf(f[1]))
    ensures f[3] == Uint(4, UintOf(f[3])) && f[7] == Uint(8, UintOf(f[7])) && f[8] == Uint(1, UintOf(f[8]))
  {
    UintAt(f, Layout(n), 0, 1);
    UintAt(f, Layout(n), 1, 8);
    UintAt(f, Layout(n), 3, 4);
    UintAt(f, Layout(n), 7, 8);
    UintAt(f, Layout(n), 8, 1);
  }

  lemma HighUintsBack(f: seq<Field>, n: Sizes)
    requires KindsOf(f) == Layout(n)
    ensures |f| == 17 && f[9] == Uint(1, UintOf(f[9])) && f[10] == Uint(1, UintOf(f[10]))
    ensures f[12] == Uint(8, UintOf(f[12])) && f[15] == Uint(8, UintOf(f[15])) && f[16] == Uint(8, UintOf(f[16]))
  {
    UintAt(f, Layout(n), 9, 1);
    UintAt(f, Layout(n), 10, 1);
    UintAt(f, Layout(n), 12, 8);
    UintAt(f, Layout(n), 15, 8);
    UintAt(f, Layout(n), 16, 8);
  }

  lemma FieldTexts(f: seq<Field>, q: Payload)
    requires |f| == 17 && FromFields(f) == Some(q)
    ensures DecodeText(BytesOf(f[4])) == Some(q.sourceEventId) && DecodeText(BytesOf(f[5])) == Some(q.title)
    ensures DecodeText(BytesOf(f[6])) == Some(q.region) && DecodeText(BytesOf(f[13])) == Some(q.evidenceManifestUri)
  {
  }

  lemma TextsBack(f: seq<Field>, n: Sizes, q: Payload)
    requires KindsOf(f) == Layout(n) && |f| == 17 && FromFields(f) == Some(q)
    ensures f[4] == UlebVector(TextBytes(q.sourceEventId)) && f[5] == UlebVector(TextBytes(q.title))
    ensures f[6] == UlebVector(TextBytes(q.region)) && f[13] == UlebVector(TextBytes(q.evidenceManifestUri))
  {
    FieldTexts(f, q);
    TextAt(f, Layout(n), 4, q.sourceEventId);
    TextAt(f, Layout(n), 5, q.title);
    TextAt(f, Layout(n), 6, q.region);
    TextAt(f, Layout(n), 13, q.evidenceManifestUri);
  }

  /** A list of seventeen, by its elements. */
  lemma Seventeen<T>(f: seq<T>, a: seq<T>, b: seq<T>, c: seq<T>)
    requires |f| == 17 && |a| == 6 && |b| == 6 && |c| == 5
    requires a == [f[0], f[1], f[2], f[3], f[4], f[5]] && b == [f[6], f[7], f[8], f[9], f[10], f[11]]
    requires c == [f[12], f[13], f[14], f[15], f[16]]
    ensures f == a + b + c
  {
  }

  /** The fields of a payload, cut in three. */
  lemma FieldsInThree(p: Payload)
    requires Packable(p)
    ensures Fields(p) == FirstSix(p) + NextSix(p) + LastFive(p)
  {
  }

  function FirstSix(p: Payload): seq<Field>
    requires Packable(p)
  {
    [ Uint(1, p.intent), Uint(8, p.oracleVersion), Raw(Hex.HexBytes(p.eventUid).value), Uint(4, p.eventRevision),
      UlebVector(TextBytes(p.sourceEventId)), UlebVector(TextBytes(p.title)) ]
  }

  function NextSix(p: Payload): seq<Field>
    requires Packable(p)
  {
    [ UlebVector(TextBytes(p.region)), Uint(8, p.occurredAtMs), Uint(1, p.hazardType), Uint(1, p.status),
      Uint(1, p.severityBand), Raw(Hex.HexBytes(p.affectedCellsRoot).value) ]
  }

  function LastFive(p: Payload): seq<Field>
    requires Packable(p)
  {
    [ Uint(8, p.affectedCellCount), UlebVector(TextBytes(p.evidenceManifestUri)),
      Raw(Hex.HexBytes(p.evidenceManifestHash).value), Uint(8, p.verifiedAtMs), Uint(8, p.freshnessDeadlineMs) ]
  }

  predicate Rebuilt(f: seq<Field>, n: Sizes, q: Payload, p: Payload) {
    && Fit(n) && KindsOf(f) == Layout(n) && Packable(p)
    && |f| == 17 && |BytesOf(f[2])| <= 32 && |BytesOf(f[11])| <= 32 && |BytesOf(f[14])| <= 32
    && FromFields(f) == Some(q) && p == Padded(q, BytesOf(f[2]), BytesOf(f[11]), BytesOf(f[14]))
  }

  lemma FirstSixAre(f: seq<Field>, n: Sizes, q: Payload, p: Payload)
    requires Rebuilt(f, n, q, p)
    ensures FirstSix(p) == [f[0], f[1], f[2], f[3], f[4], f[5]]
  {
    LowUintsBack(f, n);
    TextsBack(f, n, q);
    HashesBack(f, n, p);
  }

  lemma NextSixAre(f: seq<Field>, n: Sizes, q: Payload, p: Payload)
    requires Rebuilt(f, n, q, p)
    ensures NextSix(p) == [f[6], f[7], f[8], f[9], f[10], f[11]]
  {
    LowUintsBack(f, n);
    HighUintsBack(f, n);
    TextsBack(f, n, q);
    HashesBack(f, n, p);
  }

  lemma LastFiveAre(f: seq<Field>, n: Sizes, q: Payload, p: Payload)
    requires Rebuilt(f, n, q, p)
    ensures LastFive(p) == [f[12], f[13], f[14], f[15], f[16]]
  {
    HighUintsBack(f, n);
    TextsBack(f, n, q);
    HashesBack(f, n, p);
  }

  lemma FieldsAre(f: seq<Field>, n: Sizes, q: Payload, p: Payload)
    requires Rebuilt(f, n, q, p)
    ensures Fields(p) == f
  {
    FirstSixAre(f, n, q, p);
    NextSixAre(f, n, q, p);
    LastFiveAre(f, n, q, p);
    FieldsInThree(p);
    Seventeen(f, FirstSix(p), NextSix(p), LastFive(p));
  }

  lemma HashesBack(f: seq<Field>, n: Sizes, p: Payload)
    requires Fit(n) && KindsOf(f) == Layout(n)
    requires |f| == 17 && |BytesOf(f[2])| <= 32 && |BytesOf(f[11])| <= 32 && |BytesOf(f[14])| <= 32
    requires p.eventUid == PaddedHash(BytesOf(f[2])) && p.affectedCellsRoot == PaddedHash(BytesOf(f[11]))
    requires p.evidenceManifestHash == PaddedHash(BytesOf(f[14]))
    ensures HashesParse(p) && f[2] == Raw(Hex.HexBytes(p.eventUid).value)
    ensures f[11] == Raw(Hex.HexBytes(p.affectedCellsRoot).value)
    ensures f[14] == Raw(Hex.HexBytes(p.evidenceManifestHash).value)
  {
    KindAt(f, Layout(n), 2);
    KindAt(f, Layout(n), 11);
    KindAt(f, Layout(n), 14);
    RawBack(f[2], n.uid, p.eventUid);
    RawBack(f[11], n.root, p.affectedCellsRoot);
    RawBack(f[14], n.manifest, p.evidenceManifestHash);
  }

  lemma ReadIsOfThoseBytes(b: Bytes, n: Sizes)
    requires Fit(n) && ReadsValid(b, n)
    ensures var q := ReadWith(b, n).value; PayloadBcs(q) == Some(b) && SizesOf(q) == n
  {
    var q := ReadWith(b, n).value;
    var (f, rest) := Decode(Layout(n), b).value;
    EncodeOfDecode(Layout(n), b, f, rest);
    assert Encode(f) + [] == Encode(f);
    ContractValidIsPackable(q);
    FieldsAre(f, n, FromFields(f).value, q);
    KindsOfFields(q);
    SizesOfLayout(SizesOf(q), n);
  }

  lemma SizesOfLayout(m: Sizes, n: Sizes)
    requires Layout(m) == Layout(n)
    ensures m == n
  {
    assert Layout(m)[2] == RawKind(m.uid) && Layout(m)[11] == RawKind(m.root) && Layout(m)[14] == RawKind(m.manifest);
    assert Layout(n)[2] == RawKind(n.uid) && Layout(n)[11] == RawKind(n.root) && Layout(n)[14] == RawKind(n.manifest);
  }

  // ----- Main results -----------------------------------------------------------------------------

  /** Any bytes are those of a contract-valid payload with a hash text that is not plain exactly if they read short. */
  lemma SomeBlankPayloadIff(b: Bytes)
    ensures (exists q :: ContractValid(q) && !PlainHashes(q) && PayloadBcs(q) == Some(b)) <==> ReadsShort(b)
  {
    if ReadsShort(b) {
      var uid: nat, root: nat, manifest: nat :| uid <= 32 && root <= 32 && manifest <= 32
        && Sizes(uid, root, manifest) != FULL && ReadsValid(b, Sizes(uid, root, manifest));
      var q := ReadWith(b, Sizes(uid, root, manifest)).value;
      ReadIsOfThoseBytes(b, Sizes(uid, root, manifest));
      SizesFit(q);
      assert ContractValid(q) && !PlainHashes(q) && PayloadBcs(q) == Some(b);
    }
    forall q | ContractValid(q) && !PlainHashes(q) && PayloadBcs(q) == Some(b) ensures ReadsShort(b) {
      SizesFit(q);
      ReadsWithOwnSizes(q);
      var n := SizesOf(q);
      assert Sizes(n.uid, n.root, n.manifest) == n;
    }
  }

  /** A payload with plain hash texts is told apart by its signed bytes from every other contract-valid payload, letter
      case aside, exactly if the bytes do not read short. */
  lemma PlainIsUniqueIff(p: Payload)
    requires ContractValid(p) && PlainHashes(p)
    ensures PayloadBcs(p).Some?
    ensures (forall q :: ContractValid(q) && PayloadBcs(q) == PayloadBcs(p) ==> LowerHashes(q) == LowerHashes(p))
            <==> !ReadsShort(PayloadBcs(p).value)
  {
    ContractValidIsPackable(p);
    var b := PayloadBcs(p).value;
    SomeBlankPayloadIff(b);
    if ReadsShort(b) {
      var q :| ContractValid(q) && !PlainHashes(q) && PayloadBcs(q) == Some(b);
      PlainOfLower(p, q);
    } else {
      forall q | ContractValid(q) && PayloadBcs(q) == PayloadBcs(p) ensures LowerHashes(q) == LowerHashes(p) {
        PayloadBytesUnique(p, q);
      }
    }
  }

  /** Lower case keeps plain texts plain, and the others not. */
  lemma PlainOfLower(p: Payload, q: Payload)
    requires PlainHashes(p) && HashesParse(q) && !PlainHashes(q)
    ensures LowerHashes(q) != LowerHashes(p)
  {
    PlainHashRoundTrip(p.eventUid);
    PlainHashRoundTrip(p.affectedCellsRoot);
    PlainHashRoundTrip(p.evidenceManifestHash);
    if LowerHashes(q) == LowerHashes(p) {
      LowerOfHashIsPlain(q.eventUid, Hex.HexBytes(p.eventUid).value);
      LowerOfHashIsPlain(q.affectedCellsRoot, Hex.HexBytes(p.affectedCellsRoot).value);
      LowerOfHashIsPlain(q.evidenceManifestHash, Hex.HexBytes(p.evidenceManifestHash).value);
    }
  }
}

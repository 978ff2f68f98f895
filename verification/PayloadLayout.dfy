/** The signed payload and the event uid preimage, place by place, and the contract of the payload, field by field. */
module PayloadLayout {
  import opened Prelude
  import opened FieldCodec
  import opened SignedPayload
  import Hex

  // ----- The contract, field by field --------------------------------------------------------------

  /** Any one number of a valid payload can be changed within its range, and no further. */
  lemma NumbersAlone(p: Payload, n: int)
    requires ContractValid(p)
    ensures ContractValid(p.(intent := n)) <==> n == 1
    ensures ContractValid(p.(oracleVersion := n)) <==> n == 1
    ensures ContractValid(p.(hazardType := n)) <==> n == 1
    ensures ContractValid(p.(status := n)) <==> n == 3
    ensures ContractValid(p.(eventRevision := n)) <==> 1 <= n <= 4_294_967_295
    ensures ContractValid(p.(severityBand := n)) <==> 1 <= n <= 3
    ensures ContractValid(p.(affectedCellCount := n)) <==> 1 <= n <= 1_000_000
    ensures ContractValid(p.(occurredAtMs := n)) <==> 0 <= n <= 18_446_744_073_709_551_615
  {
  }

  /** The deadline follows the verification by six hours, and both fit 64 bits. */
  lemma TimesTogether(p: Payload, verified: int, deadline: int)
    requires ContractValid(p)
    ensures ContractValid(p.(verifiedAtMs := verified, freshnessDeadlineMs := deadline))
            <==> 0 <= verified && deadline == verified + 21_600_000 && deadline <= 18_446_744_073_709_551_615
  {
  }

  /** Texts are bounded by their UTF-8 length, and hash texts are those that read as bytes. */
  lemma TextsAlone(p: Payload, text: string)
    requires ContractValid(p)
    ensures ContractValid(p.(sourceEventId := text)) <==> 1 <= |TextBytes(text)| <= 96
    ensures ContractValid(p.(title := text)) <==> 1 <= |TextBytes(text)| <= 160
    ensures ContractValid(p.(region := text)) <==> 1 <= |TextBytes(text)| <= 160
    ensures ContractValid(p.(evidenceManifestUri := text)) <==> 1 <= |TextBytes(text)| <= 512
    ensures ContractValid(p.(eventUid := text)) <==> Hex.HexBytes(text).Some?
    ensures ContractValid(p.(affectedCellsRoot := text)) <==> Hex.HexBytes(text).Some?
    ensures ContractValid(p.(evidenceManifestHash := text)) <==> Hex.HexBytes(text).Some?
  {
  }

  // ----- The bytes ---------------------------------------------------------------------------------

  /** A text as it is written, behind its length. */
  function Vector(text: string): Bytes {
    Uleb128(|TextBytes(text)|) + TextBytes(text)
  }

  /** What follows what: the intent and the version, the event hash and revision, three texts; the time and the class
      of the event; the cells' root and count; the manifest's address and hash; and two times. */
  function PayloadBytes(intent: Byte, version: nat, uid: Bytes, revision: nat, source: Bytes, title: Bytes,
                        region: Bytes, occurred: nat, hazard: Byte, status: Byte, band: Byte, root: Bytes, count: nat,
                        uri: Bytes, manifest: Bytes, verified: nat, deadline: nat): Bytes {
    [intent]
    + (LittleEndian(8, version) + (uid + (LittleEndian(4, revision) + (source + (title + (region
    + (LittleEndian(8, occurred) + ([hazard, status, band] + (root + (LittleEndian(8, count) + (uri + (manifest
    + (LittleEndian(8, verified) + LittleEndian(8, deadline))))))))))))))
  }

  lemma OneByte(n: nat)
    requires n < 256
    ensures LittleEndian(1, n) == [n]
  {
    assert LittleEndian(0, n / 256) == [];
  }

  lemma ByteRange()
    ensures Pow256(1) == 256
  {
  }

  lemma BytePiece(f: Field, n: nat)
    requires f == Uint(1, n) && n < Pow256(1)
    ensures n < 256 && EncodeField(f) == [n]
  {
    ByteRange();
    OneByte(n);
  }

  lemma FrontPieces(p: Payload)
    requires Packable(p)
    ensures var f := Fields(p);
            && |f| == 17 && p.intent < 256 && EncodeField(f[0]) == [p.intent]
            && EncodeField(f[1]) == LittleEndian(8, p.oracleVersion)
            && EncodeField(f[2]) == Hex.HexBytes(p.eventUid).value
            && EncodeField(f[3]) == LittleEndian(4, p.eventRevision)
  {
    BytePiece(Fields(p)[0], p.intent);
  }

  lemma VectorPiece(f: Field, text: string)
    requires f == UlebVector(TextBytes(text))
    ensures EncodeField(f) == Vector(text)
  {
  }

  lemma TextPieces(p: Payload)
    requires Packable(p)
    ensures var f := Fields(p);
            && |f| == 17 && EncodeField(f[4]) == Vector(p.sourceEventId) && EncodeField(f[5]) == Vector(p.title)
            && EncodeField(f[6]) == Vector(p.region) && EncodeField(f[13]) == Vector(p.evidenceManifestUri)
  {
    VectorPiece(Fields(p)[4], p.sourceEventId);
    VectorPiece(Fields(p)[5], p.title);
    VectorPiece(Fields(p)[6], p.region);
    VectorPiece(Fields(p)[13], p.evidenceManifestUri);
  }

  lemma ClassPieces(p: Payload)
    requires Packable(p)
    ensures var f := Fields(p);
            && |f| == 17 && p.hazardType < 256 && p.status < 256 && p.severityBand < 256
            && EncodeField(f[7]) == LittleEndian(8, p.occurredAtMs) && EncodeField(f[8]) == [p.hazardType]
            && EncodeField(f[9]) == [p.status] && EncodeField(f[10]) == [p.severityBand]
  {
    var f := Fields(p);
    BytePiece(f[8], p.hazardType);
    BytePiece(f[9], p.status);
    BytePiece(f[10], p.severityBand);
  }

  lemma TailPieces(p: Payload)
    requires Packable(p)
    ensures var f := Fields(p);
            && |f| == 17 && EncodeField(f[11]) == Hex.HexBytes(p.affectedCellsRoot).value
            && EncodeField(f[12]) == LittleEndian(8, p.affectedCellCount)
            && EncodeField(f[14]) == Hex.HexBytes(p.evidenceManifestHash).value
            && EncodeField(f[15]) == LittleEndian(8, p.verifiedAtMs)
            && EncodeField(f[16]) == LittleEndian(8, p.freshnessDeadlineMs)
  {
  }

  lemma Middle(hazard: Byte, status: Byte, band: Byte, rest: Bytes)
    ensures [hazard] + ([status] + ([band] + rest)) == [hazard, status, band] + rest
  {
  }

  /** What is encoded from a place on is that field and what is encoded from the next. */
  lemma ThreeFrom(f: seq<Field>, i: nat)
    requires i + 2 < |f|
    ensures Encode(f[i..]) ==
            EncodeField(f[i]) + (EncodeField(f[i + 1]) + (EncodeField(f[i + 2]) + Encode(f[i + 3..])))
  {
    EncodeFrom(f, i);
    EncodeFrom(f, i + 1);
    EncodeFrom(f, i + 2);
  }

  lemma SixFrom(f: seq<Field>, i: nat)
    requires i + 5 < |f|
    ensures Encode(f[i..]) ==
            EncodeField(f[i]) + (EncodeField(f[i + 1]) + (EncodeField(f[i + 2]) + (EncodeField(f[i + 3])
              + (EncodeField(f[i + 4]) + (EncodeField(f[i + 5]) + Encode(f[i + 6..]))))))
  {
    ThreeFrom(f, i);
    ThreeFrom(f, i + 3);
  }

  lemma LastTwo(f: seq<Field>, i: nat)
    requires i + 2 == |f|
    ensures Encode(f[i..]) == EncodeField(f[i]) + EncodeField(f[i + 1])
  {
    EncodeFrom(f, i);
    EncodeFrom(f, i + 1);
    assert f[i + 2..] == [];
    assert EncodeField(f[i + 1]) + [] == EncodeField(f[i + 1]);
  }

  lemma LastFive(f: seq<Field>)
    requires |f| == 17
    ensures Encode(f[12..]) == EncodeField(f[12]) + (EncodeField(f[13]) + (EncodeField(f[14]) + (EncodeField(f[15])
              + EncodeField(f[16]))))
  {
    ThreeFrom(f, 12);
    LastTwo(f, 15);
  }

  /** Where the hash texts read as bytes and the numbers fit their widths, the bytes are these; and there are none
      elsewhere. */
  lemma PayloadIs(p: Payload)
    ensures PayloadBcs(p).Some? <==>
            && Hex.HexBytes(p.eventUid).Some? && Hex.HexBytes(p.affectedCellsRoot).Some?
            && Hex.HexBytes(p.evidenceManifestHash).Some?
            && 0 <= p.intent < 256 && 0 <= p.hazardType < 256 && 0 <= p.status < 256 && 0 <= p.severityBand < 256
            && 0 <= p.eventRevision < 0x1_0000_0000 && 0 <= p.oracleVersion < 0x1_0000_0000_0000_0000
            && 0 <= p.occurredAtMs < 0x1_0000_0000_0000_0000 && 0 <= p.affectedCellCount < 0x1_0000_0000_0000_0000
            && 0 <= p.verifiedAtMs < 0x1_0000_0000_0000_0000 && 0 <= p.freshnessDeadlineMs < 0x1_0000_0000_0000_0000
    ensures PayloadBcs(p).Some? ==> IsPayload(PayloadBcs(p).value, p)
  {
    assert Pow256(1) == 0x100 && Pow256(4) == 0x1_0000_0000 && Pow256(8) == 0x1_0000_0000_0000_0000;
    if Packable(p) {
      PackedPayloadIs(p);
    }
  }

  /** The bytes say what the payload says. */
  predicate IsPayload(b: Bytes, p: Payload) {
    && Hex.HexBytes(p.eventUid).Some? && Hex.HexBytes(p.affectedCellsRoot).Some?
    && Hex.HexBytes(p.evidenceManifestHash).Some?
    && 0 <= p.intent < 256 && 0 <= p.hazardType < 256 && 0 <= p.status < 256 && 0 <= p.severityBand < 256
    && 0 <= p.eventRevision && 0 <= p.oracleVersion && 0 <= p.occurredAtMs && 0 <= p.affectedCellCount
    && 0 <= p.verifiedAtMs && 0 <= p.freshnessDeadlineMs
    && b == PayloadBytes(p.intent, p.oracleVersion, Hex.HexBytes(p.eventUid).value, p.eventRevision,
                         Vector(p.sourceEventId), Vector(p.title), Vector(p.region), p.occurredAtMs, p.hazardType,
                         p.status, p.severityBand, Hex.HexBytes(p.affectedCellsRoot).value, p.affectedCellCount,
                         Vector(p.evidenceManifestUri), Hex.HexBytes(p.evidenceManifestHash).value, p.verifiedAtMs,
                         p.freshnessDeadlineMs)
  }

  lemma PackedPayloadIs(p: Payload)
    requires Packable(p)
    ensures IsPayload(Encode(Fields(p)), p)
  {
    FrontPieces(p);
    TextPieces(p);
    ClassPieces(p);
    TailPieces(p);
    PiecesAre(Fields(p), p.intent, p.oracleVersion, Hex.HexBytes(p.eventUid).value, p.eventRevision,
              Vector(p.sourceEventId), Vector(p.title), Vector(p.region), p.occurredAtMs, p.hazardType, p.status,
              p.severityBand, Hex.HexBytes(p.affectedCellsRoot).value, p.affectedCellCount,
              Vector(p.evidenceManifestUri), Hex.HexBytes(p.evidenceManifestHash).value, p.verifiedAtMs,
              p.freshnessDeadlineMs);
  }

  lemma PiecesAre(f: seq<Field>, intent: Byte, version: nat, uid: Bytes, revision: nat, source: Bytes, title: Bytes,
                  region: Bytes, occurred: nat, hazard: Byte, status: Byte, band: Byte, root: Bytes, count: nat,
                  uri: Bytes, manifest: Bytes, verified: nat, deadline: nat)
    requires |f| == 17
    requires EncodeField(f[0]) == [intent] && EncodeField(f[1]) == LittleEndian(8, version)
    requires EncodeField(f[2]) == uid && EncodeField(f[3]) == LittleEndian(4, revision)
    requires EncodeField(f[4]) == source && EncodeField(f[5]) == title && EncodeField(f[6]) == region
    requires EncodeField(f[7]) == LittleEndian(8, occurred) && EncodeField(f[8]) == [hazard]
    requires EncodeField(f[9]) == [status] && EncodeField(f[10]) == [band] && EncodeField(f[11]) == root
    requires EncodeField(f[12]) == LittleEndian(8, count) && EncodeField(f[13]) == uri
    requires EncodeField(f[14]) == manifest && EncodeField(f[15]) == LittleEndian(8, verified)
    requires EncodeField(f[16]) == LittleEndian(8, deadline)
    ensures Encode(f) == PayloadBytes(intent, version, uid, revision, source, title, region, occurred, hazard, status,
                                      band, root, count, uri, manifest, verified, deadline)
  {
    assert f[0..] == f;
    SixFrom(f, 0);
    SixFrom(f, 6);
    LastFive(f);
    Middle(hazard, status, band, root + Encode(f[12..]));
  }

  // ----- The event uid -----------------------------------------------------------------------------

  /** What is hashed: a fixed text, the hazard's number, two texts behind four-byte lengths, and the time. */
  function EventUidBytes(domain: Bytes, hazard: Byte, source: Bytes, id: Bytes, at: nat): Bytes {
    domain + ([hazard] + ((LittleEndian(4, |source|) + source) + ((LittleEndian(4, |id|) + id) + LittleEndian(8, at))))
  }

  lemma FiveFields(f: seq<Field>)
    requires |f| == 5
    ensures Encode(f) == EncodeField(f[0]) + (EncodeField(f[1]) + (EncodeField(f[2]) + (EncodeField(f[3])
              + EncodeField(f[4]))))
  {
    assert f[0..] == f;
    ThreeFrom(f, 0);
    LastTwo(f, 3);
  }

  lemma UidFieldsAre(domain: Bytes, hazard: nat, source: string, id: string, at: nat)
    requires hazard < 256
    ensures Encode(EventUidFields(domain, hazard, source, id, at))
            == EventUidBytes(domain, hazard, TextBytes(source), TextBytes(id), at)
  {
    OneByte(hazard);
    FiveFields(EventUidFields(domain, hazard, source, id, at));
  }

  lemma UidRanges(domain: Bytes, hazard: nat, source: string, id: string, at: nat)
    ensures AllInRange(EventUidFields(domain, hazard, source, id, at))
            <==> hazard < 256 && |TextBytes(source)| < 0x1_0000_0000 && |TextBytes(id)| < 0x1_0000_0000
                 && at < 0x1_0000_0000_0000_0000
  {
    var f := EventUidFields(domain, hazard, source, id, at);
    assert Pow256(1) == 256 && Pow256(4) == 0x1_0000_0000 && Pow256(8) == 0x1_0000_0000_0000_0000;
    if AllInRange(f) {
      assert InRange(f[1]) && InRange(f[2]) && InRange(f[3]) && InRange(f[4]);
    }
  }

  /** The hashed bytes of an event identifier, which exist exactly where the numbers and the lengths fit. */
  lemma EventUidIs(hazard: nat, source: string, id: string, at: nat)
    ensures EventUidPreimage(hazard, source, id, at) ==
            if hazard < 256 && |TextBytes(source)| < 0x1_0000_0000 && |TextBytes(id)| < 0x1_0000_0000
               && at < 0x1_0000_0000_0000_0000
            then Some(EventUidBytes(TextBytes("sonari:event_uid:v1"), hazard, TextBytes(source), TextBytes(id), at))
            else None
  {
    UidRanges(TextBytes("sonari:event_uid:v1"), hazard, source, id, at);
    if hazard < 256 {
      UidFieldsAre(TextBytes("sonari:event_uid:v1"), hazard, source, id, at);
    }
  }
}

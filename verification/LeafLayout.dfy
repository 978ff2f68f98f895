/** The 59 bytes of a leaf, place by place, as the checker, the dapp and the contract write them; which responses the
    dapp reads, and which claims a response is for. */
module LeafLayout {
  import opened Prelude
  import opened FieldCodec
  import opened MerkleTree
  import opened MerkleProofs
  import opened AffectedCells
  import Decimal
  import Hex

  // ----- The bytes of a leaf -----------------------------------------------------------------------

  /** Which places hold what: numbers are little-endian, the metric and the scale are 1, and the three ways to generate
      cells are 1, 2 and 3. */
  predicate LeafBytes(b: Bytes, uid: Bytes, leaf: Leaf) {
    && |b| == 59 && b[..32] == uid
    && FromLittleEndian(b[32..36]) == leaf.eventRevision
    && FromLittleEndian(b[36..44]) == leaf.h3Index
    && b[44] == leaf.geoResolution && b[45] == 1
    && FromLittleEndian(b[46..48]) == leaf.intensityValue
    && b[48] == 1 && b[49] == leaf.cellBand
    && (leaf.generation.GridPointP90? ==> b[50] == 1)
    && (leaf.generation.HdfAreaWeightedP90? ==> b[50] == 2)
    && (leaf.generation.GridCenterBilinear? ==> b[50] == 3)
    && FromLittleEndian(b[51..59]) == leaf.oracleVersion
  }

  lemma FrontNumbers(b: Bytes, uid: Bytes, leaf: Leaf)
    requires |uid| == 32 && b == Encode(LeafFields(uid, leaf)) && AllInRange(LeafFields(uid, leaf))
    ensures |b| >= 45 && b[..32] == uid && FromLittleEndian(b[32..36]) == leaf.eventRevision
    ensures FromLittleEndian(b[36..44]) == leaf.h3Index && b[44] == leaf.geoResolution
    ensures b[45..] == Encode(LeafFields(uid, leaf)[4..])
  {
    var f := LeafFields(uid, leaf);
    assert b[0..] == b && f[0..] == f;
    NextField(b, f, 0, 0, 32);
    NextNumber(b, f, 1, 32, 4, leaf.eventRevision);
    NextNumber(b, f, 2, 36, 8, leaf.h3Index);
    NextNumber(b, f, 3, 44, 1, leaf.geoResolution);
  }

  lemma BackNumbers(b: Bytes, uid: Bytes, leaf: Leaf)
    requires |b| >= 45 && b[45..] == Encode(LeafFields(uid, leaf)[4..]) && AllInRange(LeafFields(uid, leaf))
    ensures |b| == 59 && b[45] == 1 && FromLittleEndian(b[46..48]) == leaf.intensityValue && b[48] == 1
    ensures b[49] == leaf.cellBand && b[50] == MethodCode(leaf.generation)
    ensures FromLittleEndian(b[51..59]) == leaf.oracleVersion
  {
    var f := LeafFields(uid, leaf);
    NextNumber(b, f, 4, 45, 1, 1);
    NextNumber(b, f, 5, 46, 2, leaf.intensityValue);
    NextNumber(b, f, 6, 48, 1, 1);
    NextNumber(b, f, 7, 49, 1, leaf.cellBand);
    NextNumber(b, f, 8, 50, 1, MethodCode(leaf.generation));
    NextNumber(b, f, 9, 51, 8, leaf.oracleVersion);
    assert f[10..] == [] && b[59..] == [];
  }

  lemma EncodedLayout(uid: Bytes, leaf: Leaf)
    requires |uid| == 32 && AllInRange(LeafFields(uid, leaf))
    ensures LeafBytes(Encode(LeafFields(uid, leaf)), uid, leaf)
  {
    var b := Encode(LeafFields(uid, leaf));
    FrontNumbers(b, uid, leaf);
    BackNumbers(b, uid, leaf);
  }

  /** The numbers of a leaf that fit their widths. */
  predicate InWidths(leaf: Leaf) {
    && leaf.eventRevision < 0x1_0000_0000 && leaf.h3Index < 0x1_0000_0000_0000_0000 && leaf.geoResolution < 256
    && leaf.intensityValue < 65536 && leaf.cellBand < 256 && leaf.oracleVersion < 0x1_0000_0000_0000_0000
  }

  lemma InRangeIff(uid: Bytes, leaf: Leaf)
    ensures AllInRange(LeafFields(uid, leaf)) <==> InWidths(leaf)
  {
    var f := LeafFields(uid, leaf);
    assert Pow256(1) == 256 && Pow256(2) == 65536 && Pow256(4) == 0x1_0000_0000
           && Pow256(8) == 0x1_0000_0000_0000_0000;
    assert f[1] == Uint(4, leaf.eventRevision) && f[2] == Uint(8, leaf.h3Index) && f[3] == Uint(1, leaf.geoResolution);
    assert f[5] == Uint(2, leaf.intensityValue) && f[7] == Uint(1, leaf.cellBand);
    assert f[9] == Uint(8, leaf.oracleVersion);
    if AllInRange(f) {
      assert InRange(f[1]) && InRange(f[2]) && InRange(f[3]) && InRange(f[5]) && InRange(f[7]) && InRange(f[9]);
    }
  }

  /** The dapp serialises exactly the leaves with a lower-case uid whose numbers fit, and these are the bytes. */
  lemma SerializedLayout(leaf: Leaf)
    ensures SerializeLeaf(leaf).Some? <==> (exists d: Digest :: leaf.eventUid == "0x" + Hex.Print(d)) && InWidths(leaf)
    ensures forall d: Digest :: SerializeLeaf(leaf).Some? && leaf.eventUid == "0x" + Hex.Print(d) ==>
              LeafBytes(SerializeLeaf(leaf).value, d, leaf)
  {
    Hex32Iff(leaf.eventUid);
    if Hex.IsPrefixedHex32(leaf.eventUid) {
      var uid := Hex.Hex32ToBytes(leaf.eventUid);
      InRangeIff(uid, leaf);
      if InWidths(leaf) {
        EncodedLayout(uid, leaf);
      }
    }
  }

  /** A hash text with lower-case digits is the printed form of 32 bytes, and reads back to them. */
  lemma Hex32Iff(text: string)
    ensures Hex.IsPrefixedHex32(text) <==> exists d: Digest :: text == "0x" + Hex.Print(d)
    ensures forall d: Digest :: text == "0x" + Hex.Print(d) ==>
              Hex.IsPrefixedHex32(text) && Hex.Hex32ToBytes(text) == d
  {
    if Hex.IsPrefixedHex32(text) {
      Hex.Hex32RoundTrip(text);
      var d := Hex.Hex32ToBytes(text);
      assert text == "0x" + Hex.Print(d);
    }
    forall d: Digest | text == "0x" + Hex.Print(d) ensures Hex.IsPrefixedHex32(text) && Hex.Hex32ToBytes(text) == d {
      PrefixedDigest(d);
    }
  }

  /** The checker writes the same bytes, for hash texts with capitals and blanks too, as long as they stand for 32
      bytes. */
  lemma CheckedLayout(leaf: Leaf)
    ensures LeafBcs(leaf).Some? <==> Hex.HexBytes(leaf.eventUid).Some? && InWidths(leaf)
    ensures LeafBcs(leaf).Some? && |Hex.HexBytes(leaf.eventUid).value| == 32 ==>
              LeafBytes(LeafBcs(leaf).value, Hex.HexBytes(leaf.eventUid).value, leaf)
  {
    if Hex.HexBytes(leaf.eventUid).Some? {
      var uid := Hex.HexBytes(leaf.eventUid).value;
      InRangeIff(uid, leaf);
      if InWidths(leaf) && |uid| == 32 {
        EncodedLayout(uid, leaf);
      }
    }
  }

  /** The arguments for Move are the same numbers, with the uid as its bytes and the long numbers as text. */
  lemma MoveArgsAre(leaf: Leaf)
    requires Hex.IsPrefixedHex32(leaf.eventUid)
    ensures var a := BuildLeafMoveArgs(leaf);
            && leaf.eventUid == "0x" + Hex.Print(a.eventUidBytes) && a.eventRevision == leaf.eventRevision
            && a.h3Index == Decimal.Print(leaf.h3Index) && a.oracleVersion == Decimal.Print(leaf.oracleVersion)
            && a.geoResolution == leaf.geoResolution && a.cellMetric == 1
            && a.intensityValue == leaf.intensityValue && a.intensityScale == 1 && a.cellBand == leaf.cellBand
            && (leaf.generation.GridPointP90? ==> a.cellsGenerationMethod == 1)
            && (leaf.generation.HdfAreaWeightedP90? ==> a.cellsGenerationMethod == 2)
            && (leaf.generation.GridCenterBilinear? ==> a.cellsGenerationMethod == 3)
  {
    Hex.Hex32RoundTrip(leaf.eventUid);
  }

  lemma MoveStepsAre(steps: seq<HexStep>, i: nat)
    requires forall k :: 0 <= k < |steps| ==> Hex.IsPrefixedHex32(steps[k].siblingHash)
    requires i < |steps|
    ensures var a := BuildProofMoveArgs(steps);
            && |a| == |steps| && (a[i].NewProofStepLeft? <==> steps[i].siblingOnLeft)
            && steps[i].siblingHash == "0x" + Hex.Print(a[i].siblingHashBytes)
  {
    Hex.Hex32RoundTrip(steps[i].siblingHash);
  }

  // ----- The responses the dapp reads ----------------------------------------------------------------

  /** The one JSON value that says what a proof says. */
  function Printed(p: Proof): Json
    requires forall i :: 0 <= i < |p.steps| ==> Hex.IsPrefixedHex32(p.steps[i].siblingHash)
  {
    ProofJson(p.eventUid, p.eventRevision, p.leaf.h3Index, p.affectedCellsRoot, LeafJson(p.leaf),
              StepsJson(StepsOf(p.steps)))
  }

  /** A proof that can be read: lower-case hashes, a leaf for the cell and the event it is for, numbers in the ranges
      of JSON numbers and of 64 bits. */
  predicate Readable(p: Proof) {
    && Hex.IsPrefixedHex32(p.eventUid) && Hex.IsPrefixedHex32(p.affectedCellsRoot)
    && (forall i :: 0 <= i < |p.steps| ==> Hex.IsPrefixedHex32(p.steps[i].siblingHash))
    && p.leaf.eventUid == p.eventUid && p.leaf.eventRevision == p.eventRevision
    && p.h3Index == Decimal.Print(p.leaf.h3Index)
    && p.eventRevision <= 9_007_199_254_740_991 && p.leaf.geoResolution <= 9_007_199_254_740_991
    && p.leaf.intensityValue <= 9_007_199_254_740_991 && p.leaf.cellBand <= 9_007_199_254_740_991
    && p.leaf.h3Index < 0x1_0000_0000_0000_0000 && p.leaf.oracleVersion < 0x1_0000_0000_0000_0000
  }

  lemma StepsPrintBack(items: seq<Json>)
    requires ParseSteps(items).Some?
    ensures StepsJson(StepsOf(ParseSteps(items).value)) == items
  {
    var steps := ParseSteps(items).value;
    forall i | 0 <= i < |items| ensures StepsJson(StepsOf(steps))[i] == items[i] {
      assert IsStep(items[i]);
      Hex.Hex32RoundTrip(steps[i].siblingHash);
      assert items[i].fields == map[SiblingOnLeft := items[i].fields[SiblingOnLeft],
                                    SiblingHash := items[i].fields[SiblingHash]];
    }
  }

  lemma WholeNumber(v: Json)
    requires IsSafeNat(v)
    ensures v == JsonNumber(v.n.Floor as real)
  {
  }

  lemma WholeText(v: Json)
    requires IsDecimalU64(v)
    ensures v == JsonString(Decimal.Print(Decimal.Value(v.s)))
  {
    Decimal.PrintOfValue(v.s);
  }

  lemma NameOfMethod(text: string)
    requires ParseMethod(text).Some?
    ensures MethodName(ParseMethod(text).value) == text
  {
  }

  lemma SameFields(a: map<Key, Json>, b: map<Key, Json>)
    requires a.Keys == b.Keys && forall k :: k in a ==> a[k] == b[k]
    ensures a == b
  {
  }

  lemma LeafNumbersBack(v: Json, leaf: Leaf)
    requires ParseLeaf(v) == Some(leaf)
    ensures var f := v.fields;
            && f[EventRevision] == JsonNumber(leaf.eventRevision as real)
            && f[GeoResolution] == JsonNumber(leaf.geoResolution as real)
            && f[CellBand] == JsonNumber(leaf.cellBand as real)
            && f[IntensityValue] == JsonNumber(leaf.intensityValue as real)
  {
    var f := v.fields;
    WholeNumber(f[EventRevision]);
    WholeNumber(f[GeoResolution]);
    WholeNumber(f[CellBand]);
    WholeNumber(f[IntensityValue]);
  }

  lemma LeafTextsBack(v: Json, leaf: Leaf)
    requires ParseLeaf(v) == Some(leaf)
    ensures var f := v.fields;
            && f[H3Index] == JsonString(Decimal.Print(leaf.h3Index))
            && f[OracleVersion] == JsonString(Decimal.Print(leaf.oracleVersion))
            && f[CellsGenerationMethod] == JsonString(MethodName(leaf.generation))
  {
    var f := v.fields;
    WholeText(f[H3Index]);
    WholeText(f[OracleVersion]);
    NameOfMethod(f[CellsGenerationMethod].s);
  }

  lemma DescribedAlike(v: Json, w: Json, leaf: Leaf, k: Key)
    requires Describes(v, leaf) && Describes(w, leaf) && k in LEAF_KEYS
    ensures v.fields[k] == w.fields[k]
  {
  }

  lemma DescribedIsJson(v: Json, leaf: Leaf)
    requires Describes(v, leaf)
    ensures v == LeafJson(leaf)
  {
    LeafJsonDescribes(leaf);
    forall k | k in LEAF_KEYS ensures v.fields[k] == LeafJson(leaf).fields[k] {
      DescribedAlike(v, LeafJson(leaf), leaf, k);
    }
    SameFields(v.fields, LeafJson(leaf).fields);
  }

  lemma ParsedIsSafe(v: Json, leaf: Leaf)
    requires ParseLeaf(v) == Some(leaf)
    ensures Safe(leaf)
  {
  }

  lemma LeafPrintsBack(v: Json, leaf: Leaf)
    requires ParseLeaf(v) == Some(leaf)
    ensures v == LeafJson(leaf) && Safe(leaf)
  {
    LeafNumbersBack(v, leaf);
    LeafTextsBack(v, leaf);
    DescribedIsJson(v, leaf);
    ParsedIsSafe(v, leaf);
  }

  lemma ProofFieldAlike(v: Json, w: Json, p: Proof, leaf: Json, steps: seq<Json>, k: Key)
    requires DescribesProof(v, p.eventUid, p.eventRevision, p.leaf.h3Index, p.affectedCellsRoot, leaf, steps)
    requires DescribesProof(w, p.eventUid, p.eventRevision, p.leaf.h3Index, p.affectedCellsRoot, leaf, steps)
    requires k in PROOF_KEYS
    ensures v.fields[k] == w.fields[k]
  {
  }

  lemma DescribedIsProofJson(v: Json, p: Proof, leaf: Json, steps: seq<Json>)
    requires DescribesProof(v, p.eventUid, p.eventRevision, p.leaf.h3Index, p.affectedCellsRoot, leaf, steps)
    ensures v == ProofJson(p.eventUid, p.eventRevision, p.leaf.h3Index, p.affectedCellsRoot, leaf, steps)
  {
    var w := ProofJson(p.eventUid, p.eventRevision, p.leaf.h3Index, p.affectedCellsRoot, leaf, steps);
    ProofJsonDescribes(p.eventUid, p.eventRevision, p.leaf.h3Index, p.affectedCellsRoot, leaf, steps);
    forall k | k in PROOF_KEYS ensures v.fields[k] == w.fields[k] {
      ProofFieldAlike(v, w, p, leaf, steps, k);
    }
    SameFields(v.fields, w.fields);
  }

  lemma ReadParts(v: Json, p: Proof)
    requires ParseShape(v) == Some(p)
    ensures HasKeys(v, PROOF_KEYS) && v.fields[ProofKey].JsonArray?
    ensures ParseLeaf(v.fields[LeafKey]) == Some(p.leaf) && ParseSteps(v.fields[ProofKey].items) == Some(p.steps)
    ensures v.fields[EventUid] == JsonString(p.eventUid)
    ensures v.fields[EventRevision] == JsonNumber(p.eventRevision as real)
    ensures v.fields[H3Index] == JsonString(Decimal.Print(p.leaf.h3Index))
    ensures v.fields[AffectedCellsRootKey] == JsonString(p.affectedCellsRoot)
  {
    WholeNumber(v.fields[EventRevision]);
    WholeText(v.fields[H3Index]);
  }

  lemma ReadIsReadable(v: Json, p: Proof)
    requires ParseShape(v) == Some(p)
    ensures Readable(p)
  {
    ReadParts(v, p);
    ParsedIsSafe(v.fields[LeafKey], p.leaf);
  }

  lemma ReadPrintsBack(v: Json, p: Proof)
    requires ParseShape(v) == Some(p)
    ensures Readable(p) && v == Printed(p)
  {
    ReadIsReadable(v, p);
    ReadParts(v, p);
    LeafPrintsBack(v.fields[LeafKey], p.leaf);
    StepsPrintBack(v.fields[ProofKey].items);
    DescribedIsProofJson(v, p, LeafJson(p.leaf), StepsJson(StepsOf(p.steps)));
  }

  lemma StepsParseBack(steps: seq<HexStep>)
    requires forall i :: 0 <= i < |steps| ==> Hex.IsPrefixedHex32(steps[i].siblingHash)
    ensures ParseSteps(StepsJson(StepsOf(steps))) == Some(steps)
  {
    var items := StepsJson(StepsOf(steps));
    forall i | 0 <= i < |steps|
      ensures IsStep(items[i]) && items[i].fields[SiblingHash].s == steps[i].siblingHash
              && items[i].fields[SiblingOnLeft].b == steps[i].siblingOnLeft
    {
      Hex.Hex32RoundTrip(steps[i].siblingHash);
      PrefixedDigest(StepsOf(steps)[i].sibling);
    }
    assert ParseSteps(items).value == steps;
  }

  lemma PrintedReadsBack(p: Proof)
    requires Readable(p)
    ensures ParseShape(Printed(p)) == Some(p)
  {
    LeafJsonDescribes(p.leaf);
    DescribedLeafParses(LeafJson(p.leaf), p.leaf);
    StepsParseBack(p.steps);
    SafeNumber(p.eventRevision);
    PrintedU64(p.leaf.h3Index);
    ProofJsonDescribes(p.eventUid, p.eventRevision, p.leaf.h3Index, p.affectedCellsRoot, LeafJson(p.leaf),
                       StepsJson(StepsOf(p.steps)));
    PartsParse(Printed(p), p.eventUid, p.eventRevision, p.leaf.h3Index, p.affectedCellsRoot, LeafJson(p.leaf),
               StepsJson(StepsOf(p.steps)), p.leaf);
  }

  /** A response is read as a proof exactly if the proof is readable and the response is its one JSON value: nothing is
      missing, nothing is left over, and no number or text has a second spelling. */
  lemma ReadsExactlyPrinted(v: Json, p: Proof)
    ensures ParseShape(v) == Some(p) <==> Readable(p) && v == Printed(p)
  {
    if ParseShape(v) == Some(p) {
      ReadPrintsBack(v, p);
    }
    if Readable(p) {
      PrintedReadsBack(p);
    }
  }

  /** A proof the dapp has read is for exactly one claim context, its own: whichever field differs, it is refused. */
  lemma MatchesOneContext(v: Json, p: Proof, context: ClaimContext)
    requires ParseShape(v) == Some(p)
    ensures MatchesContext(p, context)
            <==> context == ClaimContext(p.eventUid, p.eventRevision, p.h3Index, p.affectedCellsRoot)
  {
    ReadPrintsBack(v, p);
  }

  lemma OutcomeOfPrinted(H: Bytes -> Digest, p: Proof)
    requires Readable(p)
    ensures ParseResponse(H, Printed(p)) != Err(InvalidProofResponse)
    ensures ParseResponse(H, Printed(p)) == Err(UncaughtRangeError) <==> !InWidths(p.leaf)
    ensures ParseResponse(H, Printed(p)).Ok? ==> ParseResponse(H, Printed(p)).value == p
  {
    PrintedReadsBack(p);
    SerializedLayout(p.leaf);
    Hex32Iff(p.leaf.eventUid);
  }

  /** Whether a read response verifies: it must be serialisable, and replay to its own root. */
  lemma ResponseOutcome(H: Bytes -> Digest, v: Json)
    ensures ParseResponse(H, v) == Err(InvalidProofResponse) <==> forall p :: Readable(p) ==> v != Printed(p)
    ensures forall p :: Readable(p) && v == Printed(p) ==>
              && (ParseResponse(H, v) == Err(UncaughtRangeError) <==> !InWidths(p.leaf))
              && (ParseResponse(H, v).Ok? ==> ParseResponse(H, v).value == p)
  {
    if ParseShape(v).Some? {
      ReadPrintsBack(v, ParseShape(v).value);
    }
    forall p | Readable(p) && v == Printed(p)
      ensures ParseResponse(H, v) != Err(InvalidProofResponse)
      ensures ParseResponse(H, v) == Err(UncaughtRangeError) <==> !InWidths(p.leaf)
      ensures ParseResponse(H, v).Ok? ==> ParseResponse(H, v).value == p
    {
      OutcomeOfPrinted(H, p);
    }
  }
}

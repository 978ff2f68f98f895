/** The affected-cells list, the proof response the dapp accepts for a home cell
    (dapp/app/claim/affected-cells-proof.ts), and the arguments it passes on to Move. */
module AffectedCells {
  import opened Prelude
  import opened FieldCodec
  import opened MerkleTree
  import opened MerkleProofs
  import Decimal
  import Hex

  // ----- Leaves ----------------------------------------------------------------------------

  datatype CellMetric = UsgsMmi

  datatype IntensityScale = MmiX100

  datatype GenerationMethod = GridPointP90 | HdfAreaWeightedP90 | GridCenterBilinear

  datatype Leaf = Leaf(
    eventUid: string,
    eventRevision: nat,
    h3Index: nat,
    geoResolution: nat,
    cellMetric: CellMetric,
    intensityValue: nat,
    intensityScale: IntensityScale,
    cellBand: nat,
    generation: GenerationMethod,
    oracleVersion: nat)

  function MetricCode(m: CellMetric): nat { 1 }

  function ScaleCode(s: IntensityScale): nat { 1 }

  function MethodCode(m: GenerationMethod): nat {
    match m case GridPointP90 => 1 case HdfAreaWeightedP90 => 2 case GridCenterBilinear => 3
  }

  function LeafFields(uid: Bytes, leaf: Leaf): seq<Field> {
    [Raw(uid)] + LeafNumbers(leaf)
  }

  function LeafNumbers(leaf: Leaf): seq<Field> {
    [ Uint(4, leaf.eventRevision),
      Uint(8, leaf.h3Index),
      Uint(1, leaf.geoResolution),
      Uint(1, MetricCode(leaf.cellMetric)),
      Uint(2, leaf.intensityValue),
      Uint(1, ScaleCode(leaf.intensityScale)),
      Uint(1, leaf.cellBand),
      Uint(1, MethodCode(leaf.generation)),
      Uint(8, leaf.oracleVersion) ]
  }

  /** `leaf_bcs` of the golden-vector checker; `None` where it raises. */
  function LeafBcs(leaf: Leaf): Option<Bytes> {
    match Hex.HexBytes(leaf.eventUid)
    case Some(uid) => if AllInRange(LeafFields(uid, leaf)) then Some(Encode(LeafFields(uid, leaf))) else None
    case None => None
  }

  /** `serializeAffectedCellLeaf`; `None` where it throws. */
  function SerializeLeaf(leaf: Leaf): Option<Bytes> {
    if !Hex.IsPrefixedHex32(leaf.eventUid) then None
    else
      var fields := LeafFields(Hex.Hex32ToBytes(leaf.eventUid), leaf);
      if AllInRange(fields) then Some(Encode(fields)) else None
  }

  // ----- The list the root commits to ---------------------------------------------------------

  datatype Cell = Cell(h3Index: nat, intensityValue: nat, cellBand: nat)

  datatype AffectedList = AffectedList(
    eventUid: string,
    eventRevision: nat,
    geoResolution: nat,
    cellMetric: CellMetric,
    intensityScale: IntensityScale,
    generation: GenerationMethod,
    oracleVersion: nat,
    cells: seq<Cell>)

  function ListLeaf(list: AffectedList, i: nat): Leaf
    requires i < |list.cells|
  {
    var cell := list.cells[i];
    Leaf(list.eventUid, list.eventRevision, cell.h3Index, list.geoResolution, list.cellMetric,
         cell.intensityValue, list.intensityScale, cell.cellBand, list.generation, list.oracleVersion)
  }

  /** What `compute` demands of the list: cells present, encodable, and in strictly ascending order. */
  predicate ListAccepted(list: AffectedList) {
    && |list.cells| > 0
    && (forall i :: 0 <= i < |list.cells| ==> LeafBcs(ListLeaf(list, i)).Some?)
    && (forall i, j :: 0 <= i < j < |list.cells| ==> list.cells[i].h3Index < list.cells[j].h3Index)
  }

  function ListLeaves(list: AffectedList): (leaves: seq<Bytes>)
    requires ListAccepted(list)
    ensures |leaves| == |list.cells|
  {
    seq(|list.cells|, i requires 0 <= i < |list.cells| => LeafBcs(ListLeaf(list, i)).value)
  }

  function AffectedCellsRoot(H: Bytes -> Digest, list: AffectedList): string
    requires ListAccepted(list)
  {
    Hex.Prefixed(Root(H, LeafHashes(H, ListLeaves(list))))
  }

  // ----- Parsing a response -------------------------------------------------------------------

  datatype Json =
    | JsonNull
    | JsonBool(b: bool)
    | JsonNumber(n: real)
    | JsonString(s: string)
    | JsonArray(items: seq<Json>)
    | JsonObject(fields: map<Key, Json>)

  /** The field names the parser knows, by name; any other is `Unexpected`. */
  datatype Key =
    | EventUid | EventRevision | H3Index | GeoResolution | CellBand | IntensityValue | CellMetricKey
    | IntensityScaleKey | CellsGenerationMethod | OracleVersion | AffectedCellsRootKey | LeafKey | ProofKey
    | SiblingOnLeft | SiblingHash
    | Unexpected(name: string)

  const U64_MAX := 18_446_744_073_709_551_615
  const MAX_SAFE_INTEGER := 9_007_199_254_740_991

  predicate IsSafeNat(v: Json) {
    v.JsonNumber? && v.n.Floor as real == v.n && 0 <= v.n.Floor <= MAX_SAFE_INTEGER
  }

  predicate IsDecimalU64(v: Json) {
    v.JsonString? && Decimal.Canonical(v.s) && Decimal.Value(v.s) <= U64_MAX
  }

  predicate IsHash(v: Json) {
    v.JsonString? && Hex.IsPrefixedHex32(v.s)
  }

  /** `expectRecord` and `expectKeys`: an object with these fields and no others. */
  predicate HasKeys(v: Json, keys: set<Key>) {
    v.JsonObject? && v.fields.Keys == keys
  }

  function ParseMethod(s: string): Option<GenerationMethod> {
    if s == "shakemap_gridxml_h3_grid_point_p90_v1" then Some(GridPointP90)
    else if s == "shakemap_hdf_h3_area_weighted_p90_v1" then Some(HdfAreaWeightedP90)
    else if s == "shakemap_gridxml_h3_center_bilinear_v1" then Some(GridCenterBilinear)
    else None
  }

  const LEAF_KEYS := {
    EventUid, EventRevision, H3Index, GeoResolution, CellBand, IntensityValue,
    CellMetricKey, IntensityScaleKey, CellsGenerationMethod, OracleVersion }

  function ParseLeaf(v: Json): Option<Leaf> {
    if !HasKeys(v, LEAF_KEYS) then None
    else
      var f := v.fields;
      if && IsHash(f[EventUid]) && IsSafeNat(f[EventRevision]) && IsDecimalU64(f[H3Index])
         && IsSafeNat(f[GeoResolution]) && IsSafeNat(f[CellBand]) && IsSafeNat(f[IntensityValue])
         && f[CellMetricKey] == JsonString("USGS_MMI") && f[IntensityScaleKey] == JsonString("MMI_X100")
         && f[CellsGenerationMethod].JsonString? && ParseMethod(f[CellsGenerationMethod].s).Some?
         && IsDecimalU64(f[OracleVersion])
      then
        Some(Leaf(f[EventUid].s, f[EventRevision].n.Floor, Decimal.Value(f[H3Index].s),
                  f[GeoResolution].n.Floor, UsgsMmi, f[IntensityValue].n.Floor, MmiX100,
                  f[CellBand].n.Floor, ParseMethod(f[CellsGenerationMethod].s).value,
                  Decimal.Value(f[OracleVersion].s)))
      else None
  }

  /** A proof step as the dapp keeps it: the hash is still text. */
  datatype HexStep = HexStep(siblingOnLeft: bool, siblingHash: string)

  predicate IsStep(v: Json) {
    && HasKeys(v, {SiblingOnLeft, SiblingHash})
    && v.fields[SiblingOnLeft].JsonBool? && IsHash(v.fields[SiblingHash])
  }

  function ParseSteps(items: seq<Json>): (steps: Option<seq<HexStep>>)
    ensures steps.Some? ==> forall i :: 0 <= i < |steps.value| ==> Hex.IsPrefixedHex32(steps.value[i].siblingHash)
  {
    if forall i :: 0 <= i < |items| ==> IsStep(items[i]) then
      Some(seq(|items|, i requires 0 <= i < |items| =>
        HexStep(items[i].fields[SiblingOnLeft].b, items[i].fields[SiblingHash].s)))
    else None
  }

  datatype Proof = Proof(
    eventUid: string,
    eventRevision: nat,
    h3Index: string,
    affectedCellsRoot: string,
    leaf: Leaf,
    steps: seq<HexStep>)

  /** What `parseAffectedCellsProofShape` guarantees of what it returns. */
  predicate WellShaped(p: Proof) {
    && Hex.IsPrefixedHex32(p.eventUid) && Hex.IsPrefixedHex32(p.affectedCellsRoot)
    && Decimal.Canonical(p.h3Index)
    && p.leaf.eventUid == p.eventUid && p.leaf.eventRevision == p.eventRevision
    && p.leaf.h3Index == Decimal.Value(p.h3Index) <= U64_MAX
    && p.leaf.oracleVersion <= U64_MAX
    && forall i :: 0 <= i < |p.steps| ==> Hex.IsPrefixedHex32(p.steps[i].siblingHash)
  }

  const PROOF_KEYS := { EventUid, EventRevision, H3Index, AffectedCellsRootKey, LeafKey, ProofKey }

  function ParseShape(v: Json): (p: Option<Proof>)
    ensures p.Some? ==> WellShaped(p.value)
  {
    if !HasKeys(v, PROOF_KEYS) then None
    else
      var f := v.fields;
      if && IsHash(f[EventUid]) && IsSafeNat(f[EventRevision]) && IsDecimalU64(f[H3Index])
         && IsHash(f[AffectedCellsRootKey]) && f[ProofKey].JsonArray?
      then
        var leaf, steps := ParseLeaf(f[LeafKey]), ParseSteps(f[ProofKey].items);
        if && leaf.Some? && steps.Some?
           && leaf.value.eventUid == f[EventUid].s
           && leaf.value.eventRevision == f[EventRevision].n.Floor
           && leaf.value.h3Index == Decimal.Value(f[H3Index].s)
        then Some(Proof(f[EventUid].s, f[EventRevision].n.Floor, f[H3Index].s, f[AffectedCellsRootKey].s,
                        leaf.value, steps.value))
        else None
      else None
  }

  // ----- Verifying it ---------------------------------------------------------------------------

  datatype ProofError =
    | InvalidProofResponse
    | ProofVerificationFailed
    | UncaughtRangeError  // thrown by the leaf serializer, outside the parser's try block

  function StepsOf(steps: seq<HexStep>): (proof: seq<ProofStep>)
    requires forall i :: 0 <= i < |steps| ==> Hex.IsPrefixedHex32(steps[i].siblingHash)
    ensures |proof| == |steps|
  {
    seq(|steps|, i requires 0 <= i < |steps| =>
      ProofStep(steps[i].siblingOnLeft, Hex.Hex32ToBytes(steps[i].siblingHash)))
  }

  function ReplayedRoot(H: Bytes -> Digest, leafBytes: Bytes, p: Proof): string
    requires WellShaped(p)
  {
    Hex.Prefixed(Replay(H, LeafHash(H, leafBytes), StepsOf(p.steps)))
  }

  /** `parseAffectedCellsProofResponse`. */
  function ParseResponse(H: Bytes -> Digest, v: Json): Result<Proof, ProofError> {
    match ParseShape(v)
    case None => Err(InvalidProofResponse)
    case Some(p) =>
      match SerializeLeaf(p.leaf)
      case None => Err(UncaughtRangeError)
      case Some(bytes) =>
        if ReplayedRoot(H, bytes, p) == p.affectedCellsRoot then Ok(p) else Err(ProofVerificationFailed)
  }

  datatype ClaimContext = ClaimContext(
    eventUid: string,
    eventRevision: nat,
    homeCell: string,
    affectedCellsRoot: string)

  /** Where `assertProofMatchesClaimContext` does not throw. */
  predicate MatchesContext(p: Proof, context: ClaimContext) {
    && p.eventUid == context.eventUid && p.leaf.eventUid == context.eventUid
    && p.eventRevision == context.eventRevision && p.leaf.eventRevision == context.eventRevision
    && p.h3Index == context.homeCell && Decimal.Print(p.leaf.h3Index) == context.homeCell
    && p.affectedCellsRoot == context.affectedCellsRoot
  }

  // ----- What acceptance shows ------------------------------------------------------------------

  /** All a leaf says, with its event uid as bytes. */
  predicate SameEntry(a: Leaf, b: Leaf) {
    && Hex.HexBytes(a.eventUid) == Hex.HexBytes(b.eventUid)
    && a.(eventUid := "") == b.(eventUid := "")
  }

  lemma Hex32IsHexBytes(value: string)
    requires Hex.IsPrefixedHex32(value)
    ensures Hex.HexBytes(value) == Some(Hex.Hex32ToBytes(value))
  {
    Hex.Hex32RoundTrip(value);
    var d := Hex.Hex32ToBytes(value);
    assert value[2..] == Hex.Print(d);
    Hex.FromHexOfPrint(d);
  }

  lemma MethodCodeInjective(a: GenerationMethod, b: GenerationMethod)
    requires MethodCode(a) == MethodCode(b)
    ensures a == b
  {
  }

  lemma {:induction false} UintsHaveOneSize(a: seq<Field>, b: seq<Field>)
    requires KindsOf(a) == KindsOf(b) && forall i :: 0 <= i < |a| ==> a[i].Uint?
    ensures |Encode(a)| == |Encode(b)|
    decreases |a|
  {
    if |a| > 0 {
      assert KindsOf(a)[0] == KindsOf(b)[0];
      assert KindsOf(a[1..]) == KindsOf(a)[1..] == KindsOf(b)[1..] == KindsOf(b[1..]);
      UintsHaveOneSize(a[1..], b[1..]);
    }
  }

  lemma EqualLeafNumbers(a: Leaf, b: Leaf)
    requires LeafNumbers(a) == LeafNumbers(b)
    ensures a.(eventUid := "") == b.(eventUid := "")
  {
    var x, y := LeafNumbers(a), LeafNumbers(b);
    assert x[0] == y[0] && x[1] == y[1] && x[2] == y[2];
    assert x[4] == y[4] && x[6] == y[6] && x[7] == y[7] && x[8] == y[8];
    MethodCodeInjective(a.generation, b.generation);
  }

  lemma EqualLeafFields(uidA: Bytes, a: Leaf, uidB: Bytes, b: Leaf)
    requires LeafFields(uidA, a) == LeafFields(uidB, b)
    ensures uidA == uidB && a.(eventUid := "") == b.(eventUid := "")
  {
    assert LeafFields(uidA, a)[0] == LeafFields(uidB, b)[0];
    assert LeafFields(uidA, a)[1..] == LeafNumbers(a) && LeafFields(uidB, b)[1..] == LeafNumbers(b);
    EqualLeafNumbers(a, b);
  }

  lemma NumbersHaveOneKind(a: Leaf, b: Leaf)
    ensures KindsOf(LeafNumbers(a)) == KindsOf(LeafNumbers(b))
    ensures |Encode(LeafNumbers(a))| == |Encode(LeafNumbers(b))|
  {
    UintsHaveOneSize(LeafNumbers(a), LeafNumbers(b));
  }

  lemma LeafSize(uid: Bytes, leaf: Leaf)
    ensures |Encode(LeafFields(uid, leaf))| == |uid| + |Encode(LeafNumbers(leaf))|
  {
    EncodeCons(Raw(uid), LeafNumbers(leaf), []);
  }

  lemma LeafUidWidth(uidA: Bytes, a: Leaf, uidB: Bytes, b: Leaf)
    requires Encode(LeafFields(uidA, a)) == Encode(LeafFields(uidB, b))
    ensures KindsOf(LeafFields(uidA, a)) == KindsOf(LeafFields(uidB, b))
  {
    NumbersHaveOneKind(a, b);
    LeafSize(uidA, a);
    LeafSize(uidB, b);
    KindsOfCons(Raw(uidA), LeafNumbers(a));
    KindsOfCons(Raw(uidB), LeafNumbers(b));
  }

  /** Equal leaf bytes mean equal leaves, even against a list whose event uid text has blanks in it. */
  lemma LeafBytesDetermineEntry(a: Leaf, b: Leaf)
    requires SerializeLeaf(a).Some? && SerializeLeaf(a) == LeafBcs(b)
    ensures SameEntry(a, b)
  {
    Hex32IsHexBytes(a.eventUid);
    var uidA, uidB := Hex.HexBytes(a.eventUid).value, Hex.HexBytes(b.eventUid).value;
    LeafUidWidth(uidA, a, uidB, b);
    EncodeInjective(LeafFields(uidA, a), LeafFields(uidB, b));
    EqualLeafFields(uidA, a, uidB, b);
  }

  lemma AcceptedResponse(H: Bytes -> Digest, v: Json) returns (p: Proof, bytes: Bytes)
    requires ParseResponse(H, v).Ok?
    ensures ParseResponse(H, v) == Ok(p) && WellShaped(p) && SerializeLeaf(p.leaf) == Some(bytes)
    ensures p.affectedCellsRoot == ReplayedRoot(H, bytes, p)
  {
    p := ParseShape(v).value;
    bytes := SerializeLeaf(p.leaf).value;
  }

  /** A response the dapp accepts for a claim, against the root of an accepted list, carries the one
      entry the list has for the home cell, or hands over a collision of `H`. */
  lemma AcceptedProofIsListEntry(H: Bytes -> Digest, v: Json, context: ClaimContext, list: AffectedList)
    returns (index: nat, x: Bytes, y: Bytes)
    requires ParseResponse(H, v).Ok? && MatchesContext(ParseResponse(H, v).value, context)
    requires ListAccepted(list) && context.affectedCellsRoot == AffectedCellsRoot(H, list)
    ensures Collision(H, x, y) || (
      && index < |list.cells|
      && SameEntry(ParseResponse(H, v).value.leaf, ListLeaf(list, index))
      && forall j :: 0 <= j < |list.cells| ==>
           (Decimal.Print(list.cells[j].h3Index) == context.homeCell <==> j == index))
  {
    var p, bytes := AcceptedResponse(H, v);
    var leaves := ListLeaves(list);
    Hex.PrefixedInjective(Replay(H, LeafHash(H, bytes), StepsOf(p.steps)), Root(H, LeafHashes(H, leaves)));
    index, x, y := InclusionSound(H, leaves, bytes, StepsOf(p.steps));
    if !Collision(H, x, y) {
      LeafBytesDetermineEntry(p.leaf, ListLeaf(list, index));
      assert list.cells[index].h3Index == p.leaf.h3Index;
      forall j | 0 <= j < |list.cells| && j != index
        ensures Decimal.Print(list.cells[j].h3Index) != context.homeCell
      {
        if Decimal.Print(list.cells[j].h3Index) == context.homeCell {
          Decimal.PrintInjective(list.cells[j].h3Index, p.leaf.h3Index);
        }
      }
    }
  }

  // ----- The honest response ------------------------------------------------------------------

  function MethodName(m: GenerationMethod): string {
    match m
    case GridPointP90 => "shakemap_gridxml_h3_grid_point_p90_v1"
    case HdfAreaWeightedP90 => "shakemap_hdf_h3_area_weighted_p90_v1"
    case GridCenterBilinear => "shakemap_gridxml_h3_center_bilinear_v1"
  }

  function LeafJson(leaf: Leaf): Json {
    JsonObject(map[
      EventUid := JsonString(leaf.eventUid),
      EventRevision := JsonNumber(leaf.eventRevision as real),
      H3Index := JsonString(Decimal.Print(leaf.h3Index)),
      GeoResolution := JsonNumber(leaf.geoResolution as real),
      CellBand := JsonNumber(leaf.cellBand as real),
      IntensityValue := JsonNumber(leaf.intensityValue as real),
      CellMetricKey := JsonString("USGS_MMI"),
      IntensityScaleKey := JsonString("MMI_X100"),
      CellsGenerationMethod := JsonString(MethodName(leaf.generation)),
      OracleVersion := JsonString(Decimal.Print(leaf.oracleVersion))])
  }

  function StepsJson(proof: seq<ProofStep>): seq<Json> {
    seq(|proof|, i requires 0 <= i < |proof| => JsonObject(map[
      SiblingOnLeft := JsonBool(proof[i].siblingOnLeft),
      SiblingHash := JsonString(Hex.Prefixed(proof[i].sibling))]))
  }

  function ProofJson(uid: string, revision: nat, h3: nat, root: string, leaf: Json, steps: seq<Json>): Json {
    JsonObject(map[
      EventUid := JsonString(uid),
      EventRevision := JsonNumber(revision as real),
      H3Index := JsonString(Decimal.Print(h3)),
      AffectedCellsRootKey := JsonString(root),
      LeafKey := leaf,
      ProofKey := JsonArray(steps)])
  }

  /** What a worker that reads the proof off the levels answers for entry `index`. */
  function HonestResponse(H: Bytes -> Digest, list: AffectedList, index: nat): Json
    requires ListAccepted(list) && index < |list.cells|
  {
    ProofJson(list.eventUid, list.eventRevision, list.cells[index].h3Index, AffectedCellsRoot(H, list),
              LeafJson(ListLeaf(list, index)), StepsJson(StepsFrom(Levels(H, LeafHashes(H, ListLeaves(list))), index)))
  }

  lemma ParseMethodOfName(m: GenerationMethod)
    ensures ParseMethod(MethodName(m)) == Some(m)
  {
    assert MethodName(GridPointP90)[9] != MethodName(HdfAreaWeightedP90)[9];
    assert MethodName(GridPointP90)[20] != MethodName(GridCenterBilinear)[20];
    assert MethodName(HdfAreaWeightedP90)[9] != MethodName(GridCenterBilinear)[9];
  }

  predicate Describes(v: Json, leaf: Leaf) {
    && HasKeys(v, LEAF_KEYS)
    && var f := v.fields;
      && f[EventUid] == JsonString(leaf.eventUid)
      && f[EventRevision] == JsonNumber(leaf.eventRevision as real)
      && f[H3Index] == JsonString(Decimal.Print(leaf.h3Index))
      && f[GeoResolution] == JsonNumber(leaf.geoResolution as real)
      && f[CellBand] == JsonNumber(leaf.cellBand as real)
      && f[IntensityValue] == JsonNumber(leaf.intensityValue as real)
      && f[CellMetricKey] == JsonString("USGS_MMI")
      && f[IntensityScaleKey] == JsonString("MMI_X100")
      && f[CellsGenerationMethod] == JsonString(MethodName(leaf.generation))
      && f[OracleVersion] == JsonString(Decimal.Print(leaf.oracleVersion))
  }

  lemma LeafJsonDescribes(leaf: Leaf)
    ensures Describes(LeafJson(leaf), leaf)
  {
    assert LeafJson(leaf).fields.Keys == LEAF_KEYS;
  }

  lemma SafeNumber(n: nat)
    requires n <= MAX_SAFE_INTEGER
    ensures IsSafeNat(JsonNumber(n as real)) && (n as real).Floor == n
  {
  }

  lemma PrintedU64(n: nat)
    requires n <= U64_MAX
    ensures IsDecimalU64(JsonString(Decimal.Print(n))) && Decimal.Value(Decimal.Print(n)) == n
  {
    Decimal.ValueOfPrint(n);
  }

  /** A leaf the parser can give: its numbers are those a JSON number or text can carry. */
  predicate Safe(leaf: Leaf) {
    && Hex.IsPrefixedHex32(leaf.eventUid) && leaf.eventRevision <= MAX_SAFE_INTEGER && leaf.h3Index <= U64_MAX
    && leaf.geoResolution <= MAX_SAFE_INTEGER && leaf.intensityValue <= MAX_SAFE_INTEGER
    && leaf.cellBand <= MAX_SAFE_INTEGER && leaf.oracleVersion <= U64_MAX
  }

  lemma DescribedLeafParses(v: Json, leaf: Leaf)
    requires Safe(leaf) && Describes(v, leaf)
    ensures ParseLeaf(v) == Some(leaf)
  {
    PrintedU64(leaf.h3Index);
    PrintedU64(leaf.oracleVersion);
    SafeNumber(leaf.eventRevision);
    SafeNumber(leaf.geoResolution);
    SafeNumber(leaf.cellBand);
    SafeNumber(leaf.intensityValue);
    ParseMethodOfName(leaf.generation);
    assert leaf.cellMetric == UsgsMmi && leaf.intensityScale == MmiX100;
  }

  lemma LeafInRange(leaf: Leaf)
    requires SerializeLeaf(leaf).Some?
    ensures Hex.IsPrefixedHex32(leaf.eventUid)
    ensures leaf.eventRevision < 0x1_0000_0000 && leaf.h3Index <= U64_MAX && leaf.oracleVersion <= U64_MAX
    ensures leaf.geoResolution < 256 && leaf.cellBand < 256 && leaf.intensityValue < 65536
    ensures Safe(leaf)
  {
    var fields := LeafFields(Hex.Hex32ToBytes(leaf.eventUid), leaf);
    assert InRange(fields[1]) && InRange(fields[2]) && InRange(fields[3]) && InRange(fields[5])
           && InRange(fields[7]) && InRange(fields[9]);
    assert Pow256(1) == 256 && Pow256(2) == 65536 && Pow256(4) == 0x1_0000_0000 && Pow256(8) == U64_MAX + 1;
  }

  lemma PrefixedDigest(d: Digest)
    ensures Hex.IsPrefixedHex32(Hex.Prefixed(d)) && Hex.Hex32ToBytes(Hex.Prefixed(d)) == d
  {
    var text := Hex.Prefixed(d);
    assert forall i :: 2 <= i < 66 ==> text[i] == Hex.Print(d)[i - 2];
    Hex.Hex32RoundTrip(text);
    Hex.PrefixedInjective(Hex.Hex32ToBytes(text), d);
  }

  lemma ParseStepsOfJson(proof: seq<ProofStep>)
    requires forall i :: 0 <= i < |proof| ==> |proof[i].sibling| == 32
    ensures ParseSteps(StepsJson(proof)).Some? && StepsOf(ParseSteps(StepsJson(proof)).value) == proof
  {
    var items := StepsJson(proof);
    forall i | 0 <= i < |proof|
      ensures IsStep(items[i]) && Hex.Hex32ToBytes(items[i].fields[SiblingHash].s) == proof[i].sibling
    {
      PrefixedDigest(proof[i].sibling);
    }
    assert StepsOf(ParseSteps(items).value) == proof;
  }

  predicate AllDigests(level: seq<Bytes>) {
    forall i :: 0 <= i < |level| ==> |level[i]| == 32
  }

  lemma {:induction false} StepsCarryDigests(H: Bytes -> Digest, level: seq<Bytes>, index: nat)
    requires |level| > 0 && AllDigests(level)
    ensures forall i :: 0 <= i < |StepsFrom(Levels(H, level), index)| ==>
      |StepsFrom(Levels(H, level), index)[i].sibling| == 32
    decreases |level|
  {
    if |level| > 1 {
      LevelsUnfold(H, level);
      StepsCarryDigests(H, NextLevel(H, level), index / 2);
    }
  }

  predicate DescribesProof(v: Json, uid: string, revision: nat, h3: nat, root: string, leaf: Json, steps: seq<Json>) {
    && HasKeys(v, PROOF_KEYS)
    && v.fields[EventUid] == JsonString(uid)
    && v.fields[EventRevision] == JsonNumber(revision as real)
    && v.fields[H3Index] == JsonString(Decimal.Print(h3))
    && v.fields[AffectedCellsRootKey] == JsonString(root)
    && v.fields[LeafKey] == leaf
    && v.fields[ProofKey] == JsonArray(steps)
  }

  lemma ProofJsonDescribes(uid: string, revision: nat, h3: nat, root: string, leaf: Json, steps: seq<Json>)
    ensures DescribesProof(ProofJson(uid, revision, h3, root, leaf, steps), uid, revision, h3, root, leaf, steps)
  {
    assert ProofJson(uid, revision, h3, root, leaf, steps).fields.Keys == PROOF_KEYS;
  }

  /** A described proof parses to its parts, once its leaf and its steps do. */
  lemma PartsParse(v: Json, uid: string, revision: nat, h3: nat, root: string, leafJson: Json, steps: seq<Json>,
                   leaf: Leaf)
    requires DescribesProof(v, uid, revision, h3, root, leafJson, steps)
    requires ParseLeaf(leafJson) == Some(leaf) && ParseSteps(steps).Some?
    requires leaf.eventUid == uid && leaf.eventRevision == revision && leaf.h3Index == h3
    requires Hex.IsPrefixedHex32(uid) && Hex.IsPrefixedHex32(root)
    requires IsSafeNat(JsonNumber(revision as real)) && IsDecimalU64(JsonString(Decimal.Print(h3)))
    requires Decimal.Value(Decimal.Print(h3)) == h3
    ensures ParseShape(v) == Some(Proof(uid, revision, Decimal.Print(h3), root, leaf, ParseSteps(steps).value))
  {
  }

  lemma DescribedProofParses(v: Json, leaf: Leaf, root: Digest, proof: seq<ProofStep>)
    requires SerializeLeaf(leaf).Some?
    requires forall i :: 0 <= i < |proof| ==> |proof[i].sibling| == 32
    requires DescribesProof(v, leaf.eventUid, leaf.eventRevision, leaf.h3Index, Hex.Prefixed(root), LeafJson(leaf),
                            StepsJson(proof))
    ensures ParseShape(v).Some?
    ensures var p := ParseShape(v).value;
      && p.leaf == leaf && p.h3Index == Decimal.Print(leaf.h3Index)
      && p.affectedCellsRoot == Hex.Prefixed(root) && StepsOf(p.steps) == proof
  {
    LeafInRange(leaf);
    LeafJsonDescribes(leaf);
    DescribedLeafParses(LeafJson(leaf), leaf);
    SafeNumber(leaf.eventRevision);
    PrintedU64(leaf.h3Index);
    PrefixedDigest(root);
    ParseStepsOfJson(proof);
    PartsParse(v, leaf.eventUid, leaf.eventRevision, leaf.h3Index, Hex.Prefixed(root), LeafJson(leaf),
               StepsJson(proof), leaf);
  }

  lemma LowerCaseResponseAccepted(H: Bytes -> Digest, list: AffectedList, index: nat)
    requires ListAccepted(list) && Hex.IsPrefixedHex32(list.eventUid) && index < |list.cells|
    ensures ParseResponse(H, HonestResponse(H, list, index)).Ok?
    ensures ParseResponse(H, HonestResponse(H, list, index)).value.leaf == ListLeaf(list, index)
    ensures MatchesContext(ParseResponse(H, HonestResponse(H, list, index)).value,
                           ClaimContext(list.eventUid, list.eventRevision, Decimal.Print(list.cells[index].h3Index),
                                        AffectedCellsRoot(H, list)))
  {
    var leaf, leaves := ListLeaf(list, index), ListLeaves(list);
    var hashes := LeafHashes(H, leaves);
    Hex32IsHexBytes(list.eventUid);
    assert SerializeLeaf(leaf) == LeafBcs(leaf) == Some(leaves[index]);
    RootIsRfc6962(H, leaves);
    StepsCarryDigests(H, hashes, index);
    var proof := StepsFrom(Levels(H, hashes), index);
    ProofJsonDescribes(list.eventUid, list.eventRevision, leaf.h3Index, AffectedCellsRoot(H, list), LeafJson(leaf),
                       StepsJson(proof));
    DescribedProofParses(HonestResponse(H, list, index), leaf, Root(H, hashes), proof);
    ProofReplaysToRoot(H, hashes, index);
  }

  lemma OtherUidRefused(uid: string, revision: nat, h3: nat, root: string, leaf: Json, steps: seq<Json>)
    requires !Hex.IsPrefixedHex32(uid)
    ensures ParseShape(ProofJson(uid, revision, h3, root, leaf, steps)).None?
  {
    ProofJsonDescribes(uid, revision, h3, root, leaf, steps);
  }

  /** Completeness: for every entry of an accepted list, the proof read off the levels is accepted, with that entry
      and matching the claim of a pass living in that cell, exactly if the list writes its event uid as lower-case
      digits. The list may write it with capitals or blanks too, and then every response is refused. */
  lemma HonestResponseAccepted(H: Bytes -> Digest, list: AffectedList, index: nat)
    requires ListAccepted(list) && index < |list.cells|
    ensures match ParseResponse(H, HonestResponse(H, list, index))
            case Ok(p) =>
              && Hex.IsPrefixedHex32(list.eventUid)
              && p.leaf == ListLeaf(list, index)
              && MatchesContext(p, ClaimContext(list.eventUid, list.eventRevision,
                                                Decimal.Print(list.cells[index].h3Index), AffectedCellsRoot(H, list)))
            case Err(e) => !Hex.IsPrefixedHex32(list.eventUid) && e == InvalidProofResponse
  {
    if Hex.IsPrefixedHex32(list.eventUid) {
      LowerCaseResponseAccepted(H, list, index);
    } else {
      OtherUidRefused(list.eventUid, list.eventRevision, list.cells[index].h3Index, AffectedCellsRoot(H, list),
                      LeafJson(ListLeaf(list, index)),
                      StepsJson(StepsFrom(Levels(H, LeafHashes(H, ListLeaves(list))), index)));
    }
  }

  // ----- The arguments passed to Move ---------------------------------------------------------

  datatype MoveLeafArgs = MoveLeafArgs(
    eventUidBytes: Bytes,
    eventRevision: nat,
    h3Index: string,
    geoResolution: nat,
    cellMetric: nat,
    intensityValue: nat,
    intensityScale: nat,
    cellBand: nat,
    cellsGenerationMethod: nat,
    oracleVersion: string)

  function BuildLeafMoveArgs(leaf: Leaf): MoveLeafArgs
    requires Hex.IsPrefixedHex32(leaf.eventUid)
  {
    MoveLeafArgs(Hex.Hex32ToBytes(leaf.eventUid), leaf.eventRevision, Decimal.Print(leaf.h3Index), leaf.geoResolution,
                 MetricCode(leaf.cellMetric), leaf.intensityValue, ScaleCode(leaf.intensityScale), leaf.cellBand,
                 MethodCode(leaf.generation), Decimal.Print(leaf.oracleVersion))
  }

  datatype MoveProofArg = NewProofStepLeft(siblingHashBytes: Bytes) | NewProofStepRight(siblingHashBytes: Bytes)

  function BuildProofMoveArgs(steps: seq<HexStep>): (moveArgs: seq<MoveProofArg>)
    requires forall i :: 0 <= i < |steps| ==> Hex.IsPrefixedHex32(steps[i].siblingHash)
    ensures |moveArgs| == |steps|
  {
    seq(|steps|, i requires 0 <= i < |steps| =>
      var bytes: Bytes := Hex.Hex32ToBytes(steps[i].siblingHash);
      if steps[i].siblingOnLeft then NewProofStepLeft(bytes) else NewProofStepRight(bytes))
  }

  /** `leaf_hash` in contracts/sources/affected_cell.move appends one encoded field after another. */
  function AppendAll(bytes: Bytes, fields: seq<Field>): Bytes
    decreases |fields|
  {
    if |fields| == 0 then bytes else AppendAll(bytes + EncodeField(fields[0]), fields[1..])
  }

  function MoveLeafHash(H: Bytes -> Digest, a: MoveLeafArgs): Digest
    requires Decimal.AllDigits(a.h3Index) && Decimal.AllDigits(a.oracleVersion)
  {
    H(AppendAll([0x00], [
      Raw(a.eventUidBytes), Uint(4, a.eventRevision), Uint(8, Decimal.Value(a.h3Index)), Uint(1, a.geoResolution),
      Uint(1, a.cellMetric), Uint(2, a.intensityValue), Uint(1, a.intensityScale), Uint(1, a.cellBand),
      Uint(1, a.cellsGenerationMethod), Uint(8, Decimal.Value(a.oracleVersion)) ]))
  }

  /** `verify_proof` in the same file. */
  function MoveReplay(H: Bytes -> Digest, current: Bytes, proof: seq<MoveProofArg>): Bytes
    decreases |proof|
  {
    if |proof| == 0 then current
    else
      var next := match proof[0]
        case NewProofStepLeft(sibling) => H([0x01] + sibling + current)
        case NewProofStepRight(sibling) => H([0x01] + current + sibling);
      MoveReplay(H, next, proof[1..])
  }

  lemma {:induction false} AppendAllIsEncode(bytes: Bytes, fields: seq<Field>)
    ensures AppendAll(bytes, fields) == bytes + Encode(fields)
    decreases |fields|
  {
    if |fields| == 0 {
      assert bytes + [] == bytes;
    } else {
      AppendAllIsEncode(bytes + EncodeField(fields[0]), fields[1..]);
    }
  }

  lemma {:induction false} MoveReplayIsReplay(H: Bytes -> Digest, current: Bytes, steps: seq<HexStep>)
    requires forall i :: 0 <= i < |steps| ==> Hex.IsPrefixedHex32(steps[i].siblingHash)
    ensures MoveReplay(H, current, BuildProofMoveArgs(steps)) == Replay(H, current, StepsOf(steps))
    decreases |steps|
  {
    if |steps| > 0 {
      var moveArgs, proof := BuildProofMoveArgs(steps), StepsOf(steps);
      assert moveArgs[1..] == BuildProofMoveArgs(steps[1..]);
      assert proof == [proof[0]] + StepsOf(steps[1..]);
      MoveReplayIsReplay(H, Combine(H, current, proof[0]), steps[1..]);
      ReplayFromFirst(H, current, proof[0], StepsOf(steps[1..]));
    }
  }

  /** The arguments built for Move make its `verify_proof` accept exactly when the dapp did. */
  lemma MoveAgreesWithDapp(H: Bytes -> Digest, p: Proof)
    requires WellShaped(p) && SerializeLeaf(p.leaf).Some?
    ensures MoveLeafHash(H, BuildLeafMoveArgs(p.leaf)) == LeafHash(H, SerializeLeaf(p.leaf).value)
    ensures MoveReplay(H, MoveLeafHash(H, BuildLeafMoveArgs(p.leaf)), BuildProofMoveArgs(p.steps))
              == Hex.Hex32ToBytes(p.affectedCellsRoot)
            <==> ReplayedRoot(H, SerializeLeaf(p.leaf).value, p) == p.affectedCellsRoot
  {
    var uid, bytes := Hex.Hex32ToBytes(p.leaf.eventUid), SerializeLeaf(p.leaf).value;
    Decimal.ValueOfPrint(p.leaf.h3Index);
    Decimal.ValueOfPrint(p.leaf.oracleVersion);
    AppendAllIsEncode([0x00], LeafFields(uid, p.leaf));
    MoveReplayIsReplay(H, LeafHash(H, bytes), p.steps);
    Hex.Hex32RoundTrip(p.affectedCellsRoot);
    var replayed := Replay(H, LeafHash(H, bytes), StepsOf(p.steps));
    if Hex.Prefixed(replayed) == p.affectedCellsRoot {
      Hex.PrefixedInjective(replayed, Hex.Hex32ToBytes(p.affectedCellsRoot));
    }
  }
}

/** The byte layout shared by the signed payload, the Merkle leaves and the event uid: fixed-width
    little-endian integers, raw bytes, and byte vectors prefixed by their length. */
module FieldCodec {
  import opened Prelude
  import Joining

  // ----- Little-endian integers (`struct.pack("<B" | "<H" | "<I" | "<Q")`) -------------------

  function Pow256(width: nat): (p: nat)
    ensures p >= 1
  {
    if width == 0 then 1 else 256 * Pow256(width - 1)
  }

  function LittleEndian(width: nat, value: nat): (bytes: Bytes)
    ensures |bytes| == width
  {
    if width == 0 then [] else [value % 256] + LittleEndian(width - 1, value / 256)
  }

  function FromLittleEndian(bytes: Bytes): nat {
    if |bytes| == 0 then 0 else bytes[0] + 256 * FromLittleEndian(bytes[1..])
  }

  lemma {:induction false} LittleEndianRoundTrip(width: nat, value: nat)
    requires value < Pow256(width)
    ensures FromLittleEndian(LittleEndian(width, value)) == value
    decreases width
  {
    if width > 0 {
      LittleEndianRoundTrip(width - 1, value / 256);
    }
  }

  lemma {:induction false} FromLittleEndianRoundTrip(bytes: Bytes)
    ensures FromLittleEndian(bytes) < Pow256(|bytes|)
    ensures LittleEndian(|bytes|, FromLittleEndian(bytes)) == bytes
    decreases |bytes|
  {
    if |bytes| > 0 {
      FromLittleEndianRoundTrip(bytes[1..]);
      var value := FromLittleEndian(bytes);
      assert value % 256 == bytes[0] && value / 256 == FromLittleEndian(bytes[1..]);
      assert bytes == [bytes[0]] + bytes[1..];
    }
  }

  // ----- ULEB128 (DWARF 4, section 7.6) -------------------------------------------------------

  function Uleb128(value: nat): (bytes: Bytes)
    ensures |bytes| > 0
  {
    if value < 0x80 then [value] else [value % 0x80 + 0x80] + Uleb128(value / 0x80)
  }

  method EncodeUleb128(value: nat) returns (out: Bytes)
    ensures out == Uleb128(value)
  {
    out := [];
    var rest := value;
    while rest >= 0x80
      invariant out + Uleb128(rest) == Uleb128(value)
    {
      ghost var tail := Uleb128(rest / 0x80);
      assert out + ([rest % 0x80 + 0x80] + tail) == out + [rest % 0x80 + 0x80] + tail;
      out := out + [rest % 0x80 + 0x80];
      rest := rest / 0x80;
    }
    out := out + [rest];
  }

  /** Reads one number, however many redundant groups it is written with, and what follows it. */
  function ReadUleb128(b: Bytes): Option<(nat, Bytes)> {
    if |b| == 0 then None
    else if b[0] < 0x80 then Some((b[0], b[1..]))
    else
      match ReadUleb128(b[1..])
      case None => None
      case Some((high, rest)) => Some((0x80 * high + b[0] % 0x80, rest))
  }

  lemma {:induction false} UlebRoundTrip(value: nat, rest: Bytes)
    ensures ReadUleb128(Uleb128(value) + rest) == Some((value, rest))
    decreases value
  {
    var b := Uleb128(value) + rest;
    if value >= 0x80 {
      UlebRoundTrip(value / 0x80, rest);
      assert b[1..] == Uleb128(value / 0x80) + rest;
    } else {
      assert b[1..] == rest;
    }
  }

  /** No ULEB128 writing of a number is shorter than the encoder's, and no other is as short. */
  lemma {:induction false} UlebMinimal(b: Bytes, value: nat)
    requires ReadUleb128(b) == Some((value, []))
    ensures |b| >= |Uleb128(value)|
    ensures |b| == |Uleb128(value)| ==> b == Uleb128(value)
    decreases |b|
  {
    if b[0] < 0x80 {
      assert b == [b[0]] + b[1..];
    } else {
      var high := ReadUleb128(b[1..]).value.0;
      UlebMinimal(b[1..], high);
      assert value / 0x80 == high && value % 0x80 == b[0] % 0x80;
      assert b == [b[0]] + b[1..];
      if value < 0x80 {
        assert |b[1..]| >= 1;
      }
    }
  }

  /** No encoding is a proper prefix of another. */
  lemma UlebPrefixFree(m: nat, n: nat)
    requires Uleb128(m) <= Uleb128(n)
    ensures m == n
  {
    var rest := Uleb128(n)[|Uleb128(m)|..];
    assert Uleb128(n) == Uleb128(m) + rest && Uleb128(n) == Uleb128(n) + [];
    UlebRoundTrip(m, rest);
    UlebRoundTrip(n, []);
  }

  // ----- Sequences of fields --------------------------------------------------------------------

  datatype Kind = UintKind(width: nat) | RawKind(size: nat) | UlebVectorKind | U32VectorKind

  datatype Field =
    | Uint(width: nat, value: nat)
    | Raw(bytes: Bytes)
    | UlebVector(bytes: Bytes)
    | U32Vector(bytes: Bytes)

  function KindOf(f: Field): Kind {
    match f
    case Uint(width, _) => UintKind(width)
    case Raw(bytes) => RawKind(|bytes|)
    case UlebVector(_) => UlebVectorKind
    case U32Vector(_) => U32VectorKind
  }

  function KindsOf(fields: seq<Field>): (kinds: seq<Kind>)
    ensures |kinds| == |fields|
  {
    seq(|fields|, i requires 0 <= i < |fields| => KindOf(fields[i]))
  }

  /** What `struct.pack` accepts. */
  predicate InRange(f: Field) {
    match f
    case Uint(width, value) => value < Pow256(width)
    case U32Vector(bytes) => |bytes| < Pow256(4)
    case _ => true
  }

  predicate AllInRange(fields: seq<Field>) {
    forall i :: 0 <= i < |fields| ==> InRange(fields[i])
  }

  function EncodeField(f: Field): Bytes {
    match f
    case Uint(width, value) => LittleEndian(width, value)
    case Raw(bytes) => bytes
    case UlebVector(bytes) => Uleb128(|bytes|) + bytes
    case U32Vector(bytes) => LittleEndian(4, |bytes|) + bytes
  }

  /** `b"".join` of the encoded fields. */
  function Encode(fields: seq<Field>): Bytes {
    if |fields| == 0 then [] else EncodeField(fields[0]) + Encode(fields[1..])
  }

  function Take(b: Bytes, size: nat): Option<(Bytes, Bytes)> {
    if |b| < size then None else Some((b[..size], b[size..]))
  }

  function DecodeField(kind: Kind, b: Bytes): Option<(Field, Bytes)> {
    match kind
    case UintKind(width) =>
      (match Take(b, width)
       case None => None
       case Some((head, rest)) => Some((Uint(width, FromLittleEndian(head)), rest)))
    case RawKind(size) =>
      (match Take(b, size)
       case None => None
       case Some((head, rest)) => Some((Raw(head), rest)))
    case UlebVectorKind =>
      (match ReadUleb128(b)
       case None => None
       case Some((size, tail)) =>
         // A length written with redundant groups is not canonical.
         if Uleb128(size) + tail != b then None
         else
           match Take(tail, size)
           case None => None
           case Some((head, rest)) => Some((UlebVector(head), rest)))
    case U32VectorKind =>
      (match Take(b, 4)
       case None => None
       case Some((prefix, tail)) =>
         match Take(tail, FromLittleEndian(prefix))
         case None => None
         case Some((head, rest)) => Some((U32Vector(head), rest)))
  }

  function Decode(kinds: seq<Kind>, b: Bytes): Option<(seq<Field>, Bytes)> {
    if |kinds| == 0 then Some(([], b))
    else
      match DecodeField(kinds[0], b)
      case None => None
      case Some((f, rest)) =>
        match Decode(kinds[1..], rest)
        case None => None
        case Some((fs, end)) => Some(([f] + fs, end))
  }

  lemma TakeOfConcat(head: Bytes, rest: Bytes)
    ensures Take(head + rest, |head|) == Some((head, rest))
  {
    assert (head + rest)[..|head|] == head && (head + rest)[|head|..] == rest;
  }

  lemma DecodeVectorOfEncode(bytes: Bytes, rest: Bytes)
    ensures DecodeField(UlebVectorKind, Uleb128(|bytes|) + bytes + rest) == Some((UlebVector(bytes), rest))
  {
    Joining.Regroup(Uleb128(|bytes|), bytes, rest);
    UlebRoundTrip(|bytes|, bytes + rest);
    TakeOfConcat(bytes, rest);
  }

  lemma DecodeU32VectorOfEncode(bytes: Bytes, rest: Bytes)
    requires |bytes| < Pow256(4)
    ensures DecodeField(U32VectorKind, LittleEndian(4, |bytes|) + bytes + rest) == Some((U32Vector(bytes), rest))
  {
    Joining.Regroup(LittleEndian(4, |bytes|), bytes, rest);
    TakeOfConcat(LittleEndian(4, |bytes|), bytes + rest);
    LittleEndianRoundTrip(4, |bytes|);
    TakeOfConcat(bytes, rest);
  }

  lemma DecodeFieldOfEncode(f: Field, rest: Bytes)
    requires InRange(f)
    ensures DecodeField(KindOf(f), EncodeField(f) + rest) == Some((f, rest))
  {
    match f
    case Uint(width, value) =>
      TakeOfConcat(LittleEndian(width, value), rest);
      LittleEndianRoundTrip(width, value);
    case Raw(bytes) => TakeOfConcat(bytes, rest);
    case UlebVector(bytes) => DecodeVectorOfEncode(bytes, rest);
    case U32Vector(bytes) => DecodeU32VectorOfEncode(bytes, rest);
  }

  lemma DecodeFieldSound(kind: Kind, b: Bytes)
    requires DecodeField(kind, b).Some?
    ensures KindOf(DecodeField(kind, b).value.0) == kind && InRange(DecodeField(kind, b).value.0)
    ensures EncodeField(DecodeField(kind, b).value.0) + DecodeField(kind, b).value.1 == b
  {
    match kind
    case UintKind(width) => FromLittleEndianRoundTrip(b[..width]);
    case RawKind(_) =>
    case UlebVectorKind =>
      var (size, tail) := ReadUleb128(b).value;
      assert Uleb128(size) + (tail[..size] + tail[size..]) == Uleb128(size) + tail[..size] + tail[size..];
      assert tail == tail[..size] + tail[size..];
    case U32VectorKind =>
      var prefix, tail := b[..4], b[4..];
      var size := FromLittleEndian(prefix);
      FromLittleEndianRoundTrip(prefix);
      assert b == prefix + tail;
      assert tail == tail[..size] + tail[size..];
      assert prefix + (tail[..size] + tail[size..]) == prefix + tail[..size] + tail[size..];
  }

  lemma DecodeCons(kinds: seq<Kind>, b: Bytes, f: Field, tail: Bytes, fs: seq<Field>, rest: Bytes)
    requires |kinds| > 0
    requires DecodeField(kinds[0], b) == Some((f, tail)) && Decode(kinds[1..], tail) == Some((fs, rest))
    ensures Decode(kinds, b) == Some(([f] + fs, rest))
  {
  }

  lemma KindsOfCons(f: Field, fs: seq<Field>)
    ensures KindsOf([f] + fs) == [KindOf(f)] + KindsOf(fs)
  {
  }

  lemma EncodeCons(f: Field, fs: seq<Field>, rest: Bytes)
    ensures Encode([f] + fs) + rest == EncodeField(f) + (Encode(fs) + rest)
  {
    assert ([f] + fs)[1..] == fs;
  }

  lemma EncodeFirst(f: Field, fs: seq<Field>)
    ensures Encode([f] + fs) == EncodeField(f) + Encode(fs)
  {
    assert ([f] + fs)[1..] == fs;
  }

  lemma EncodeOne(f: Field)
    ensures Encode([f]) == EncodeField(f)
  {
    EncodeFirst(f, []);
    assert [f] + [] == [f];
  }

  lemma {:induction false} EncodeConcat(a: seq<Field>, b: seq<Field>)
    ensures Encode(a + b) == Encode(a) + Encode(b)
    decreases |a|
  {
    if |a| == 0 {
      assert a + b == b;
    } else {
      assert (a + b)[1..] == a[1..] + b;
      EncodeConcat(a[1..], b);
      Joining.Regroup(EncodeField(a[0]), Encode(a[1..]), Encode(b));
    }
  }

  lemma EncodeFrom(fields: seq<Field>, i: nat)
    requires i < |fields|
    ensures Encode(fields[i..]) == EncodeField(fields[i]) + Encode(fields[i + 1..])
  {
    assert fields[i..][1..] == fields[i + 1..];
  }

  /** One field further along the bytes. */
  lemma NextField(b: Bytes, fields: seq<Field>, i: nat, at: nat, size: nat)
    requires i < |fields| && at <= |b| && b[at..] == Encode(fields[i..]) && |EncodeField(fields[i])| == size
    ensures at + size <= |b| && b[at..at + size] == EncodeField(fields[i])
    ensures b[at + size..] == Encode(fields[i + 1..])
  {
    EncodeFrom(fields, i);
    var rest := b[at..];
    assert rest[..size] == EncodeField(fields[i]) && rest[size..] == Encode(fields[i + 1..]);
    assert b[at..at + size] == rest[..size] && b[at + size..] == rest[size..];
  }

  /** And the number that stands there. */
  lemma NextNumber(b: Bytes, fields: seq<Field>, i: nat, at: nat, width: nat, value: nat)
    requires i < |fields| && at <= |b| && b[at..] == Encode(fields[i..])
    requires fields[i] == Uint(width, value) && InRange(fields[i])
    ensures at + width <= |b| && b[at + width..] == Encode(fields[i + 1..])
    ensures FromLittleEndian(b[at..at + width]) == value
    ensures width == 1 ==> b[at] == value
  {
    NextField(b, fields, i, at, width);
    LittleEndianRoundTrip(width, value);
    if width == 1 {
      assert FromLittleEndian(b[at..at + 1]) == b[at] + 256 * FromLittleEndian(b[at..at + 1][1..]);
    }
  }

  /** Decoding inverts encoding, whatever bytes follow. */
  lemma {:induction false} DecodeOfEncode(fields: seq<Field>, rest: Bytes)
    requires AllInRange(fields)
    ensures Decode(KindsOf(fields), Encode(fields) + rest) == Some((fields, rest))
    decreases |fields|
  {
    if |fields| == 0 {
      assert [] + rest == rest;
    } else {
      var f, fs := fields[0], fields[1..];
      assert fields == [f] + fs;
      EncodeCons(f, fs, rest);
      KindsOfCons(f, fs);
      DecodeFieldOfEncode(f, Encode(fs) + rest);
      DecodeOfEncode(fs, rest);
      DecodeCons(KindsOf(fields), Encode(fields) + rest, f, Encode(fs) + rest, fs, rest);
    }
  }

  lemma EncodeStep(kind: Kind, b: Bytes, f: Field, tail: Bytes, kinds: seq<Kind>, fs: seq<Field>, rest: Bytes)
    requires DecodeField(kind, b) == Some((f, tail))
    requires KindsOf(fs) == kinds && AllInRange(fs) && Encode(fs) + rest == tail
    ensures KindsOf([f] + fs) == [kind] + kinds && AllInRange([f] + fs) && Encode([f] + fs) + rest == b
  {
    DecodeFieldSound(kind, b);
    EncodeCons(f, fs, rest);
    KindsOfCons(f, fs);
  }

  /** What decodes is the encoding of what it decodes to. */
  lemma {:induction false} EncodeOfDecode(kinds: seq<Kind>, b: Bytes, fields: seq<Field>, rest: Bytes)
    requires Decode(kinds, b) == Some((fields, rest))
    ensures KindsOf(fields) == kinds && AllInRange(fields) && Encode(fields) + rest == b
    decreases |kinds|
  {
    if |kinds| == 0 {
      assert [] + b == b;
    } else {
      var (f, tail) := DecodeField(kinds[0], b).value;
      var (fs, end) := Decode(kinds[1..], tail).value;
      EncodeOfDecode(kinds[1..], tail, fs, end);
      EncodeStep(kinds[0], b, f, tail, kinds[1..], fs, rest);
      assert kinds == [kinds[0]] + kinds[1..] && fields == [f] + fs;
    }
  }

  /** Two encodings of the same layout agree only on equal fields. */
  lemma EncodeInjective(a: seq<Field>, b: seq<Field>)
    requires AllInRange(a) && AllInRange(b) && KindsOf(a) == KindsOf(b)
    requires Encode(a) == Encode(b)
    ensures a == b
  {
    DecodeOfEncode(a, []);
    DecodeOfEncode(b, []);
  }
}

// The three byte encodings that are hashed: length-prefixed segments (storage keys), tagged
// fields (canonical payloads) and the domain-prefixed attestation payload.  Everything is
// stated on the bytes fed to the hash function, which itself is not part of the model.

module CanonicalEncoding {
  import opened Words

  type Bytes = seq<u8>

  // Host byte objects carry a 32-bit length.
  type Blob = b: Bytes | |b| <= U32_MAX

  datatype Error = ValidationError

  // ----- fixed-width big-endian integers -----

  function Be4(n: u32): (b: Bytes)
    ensures |b| == 4
  {
    var n1 := n / 0x100;
    var n2 := n1 / 0x100;
    [n2 / 0x100, n2 % 0x100, n1 % 0x100, n % 0x100]
  }

  function FromBe4(b: Bytes): u32
    requires |b| == 4
  {
    (((b[0] as int) * 0x100 + b[1]) * 0x100 + b[2]) * 0x100 + b[3]
  }

  function Be8(n: u64): (b: Bytes)
    ensures |b| == 8
  {
    Be4(n / 0x1_0000_0000) + Be4(n % 0x1_0000_0000)
  }

  function FromBe8(b: Bytes): u64
    requires |b| == 8
  {
    FromBe4(b[..4]) * 0x1_0000_0000 + FromBe4(b[4..])
  }

  lemma Be4Decodes(n: u32)
    ensures FromBe4(Be4(n)) == n
  {
  }

  lemma Be4Encodes(b: Bytes)
    requires |b| == 4
    ensures Be4(FromBe4(b)) == b
  {
    var n := FromBe4(b);
    assert n / 0x100 == ((b[0] as int) * 0x100 + b[1]) * 0x100 + b[2];
    assert n / 0x100 / 0x100 == (b[0] as int) * 0x100 + b[1];
  }

  lemma Be8Decodes(n: u64)
    ensures FromBe8(Be8(n)) == n
  {
    var hi, lo := n / 0x1_0000_0000, n % 0x1_0000_0000;
    Be4Decodes(hi);
    Be4Decodes(lo);
    assert Be8(n)[..4] == Be4(hi) && Be8(n)[4..] == Be4(lo);
  }

  lemma Be8Encodes(b: Bytes)
    requires |b| == 8
    ensures Be8(FromBe8(b)) == b
  {
    Be4Encodes(b[..4]);
    Be4Encodes(b[4..]);
    var hi, lo := FromBe4(b[..4]), FromBe4(b[4..]);
    assert FromBe8(b) / 0x1_0000_0000 == hi && FromBe8(b) % 0x1_0000_0000 == lo;
    assert b == b[..4] + b[4..];
  }

  // What the bytes stand for, most significant byte first.
  predicate BigEndian4(b: Bytes, n: nat) {
    |b| == 4 && n == (b[0] as int) * 0x100_0000 + (b[1] as int) * 0x1_0000 + (b[2] as int) * 0x100 + b[3]
  }

  ghost predicate BigEndian8(b: Bytes, n: nat) {
    exists hi: nat, lo: nat :: Halves(b, hi, lo) && n == hi * 0x1_0000_0000 + lo
  }

  predicate Halves(b: Bytes, hi: nat, lo: nat) {
    |b| == 8 && BigEndian4(b[..4], hi) && BigEndian4(b[4..], lo)
  }

  lemma Be4Places(n: u32)
    ensures BigEndian4(Be4(n), n)
  {
    Be4Decodes(n);
  }

  lemma Be8Places(n: u64)
    ensures BigEndian8(Be8(n), n)
  {
    var hi, lo := n / 0x1_0000_0000, n % 0x1_0000_0000;
    Be4Places(hi);
    Be4Places(lo);
    assert Be8(n)[..4] == Be4(hi) && Be8(n)[4..] == Be4(lo);
    assert Halves(Be8(n), hi, lo);
  }

  // ----- length-prefixed segments -----

  function Prefixed(data: Blob): Bytes {
    Be4(|data|) + data
  }

  function EncodeSegments(parts: seq<Blob>): Bytes {
    if parts == [] then [] else Prefixed(parts[0]) + EncodeSegments(parts[1..])
  }

  // Four length bytes and then the data.
  predicate LengthThen(b: Bytes, data: Bytes) {
    |b| == 4 + |data| && BigEndian4(b[..4], |data|) && b[4..] == data
  }

  lemma PrefixedLayout(data: Blob)
    ensures LengthThen(Prefixed(data), data)
  {
    Be4Places(|data|);
    assert Prefixed(data)[..4] == Be4(|data|) && Prefixed(data)[4..] == data;
  }

  // The segments follow each other in order, each after its length.
  lemma SegmentLayout(parts: seq<Blob>)
    ensures parts == [] ==> EncodeSegments(parts) == []
    ensures parts != [] ==>
              var b, end := EncodeSegments(parts), 4 + |parts[0]|;
              end <= |b| && LengthThen(b[..end], parts[0]) && b[end..] == EncodeSegments(parts[1..])
  {
    if parts != [] {
      PrefixedLayout(parts[0]);
      var p, rest := Prefixed(parts[0]), EncodeSegments(parts[1..]);
      assert (p + rest)[..|p|] == p && (p + rest)[|p|..] == rest;
    }
  }

  // Read one length-prefixed value off the front.
  function TakePrefixed(b: Bytes): Option<(Blob, Bytes)> {
    if |b| < 4 then None else
      var n := FromBe4(b[..4]);
      if |b| - 4 < n then None else Some((b[4..4 + n], b[4 + n..]))
  }

  lemma TakePrefixedInverse(data: Blob, rest: Bytes)
    ensures TakePrefixed(Prefixed(data) + rest) == Some((data, rest))
  {
    var b := Prefixed(data) + rest;
    Be4Decodes(|data|);
    assert b[..4] == Be4(|data|);
    assert b[4..4 + |data|] == data && b[4 + |data|..] == rest;
  }

  lemma TakePrefixedOnlyEncodings(b: Bytes)
    ensures var r := TakePrefixed(b);
            r.Some? ==> b == Prefixed(r.value.0) + r.value.1 && |r.value.1| < |b|
  {
    if |b| >= 4 {
      Be4Encodes(b[..4]);
    }
  }

  function DecodeSegments(b: Bytes): Option<seq<Blob>>
    decreases |b|
  {
    if b == [] then Some([]) else
      TakePrefixedOnlyEncodings(b);
      match TakePrefixed(b)
      case None => None
      case Some((part, rest)) =>
        match DecodeSegments(rest)
        case None => None
        case Some(parts) => Some([part] + parts)
  }

  lemma {:induction false} SegmentsRoundTrip(parts: seq<Blob>)
    ensures DecodeSegments(EncodeSegments(parts)) == Some(parts)
  {
    if parts != [] {
      TakePrefixedInverse(parts[0], EncodeSegments(parts[1..]));
      SegmentsRoundTrip(parts[1..]);
      assert parts == [parts[0]] + parts[1..];
    }
  }

  // Nothing but an encoding is decoded, so the decoder also recognizes the pre-images.
  lemma {:induction false} SegmentsOnlyEncodings(b: Bytes)
    requires DecodeSegments(b).Some?
    ensures EncodeSegments(DecodeSegments(b).value) == b
    decreases |b|
  {
    if b != [] {
      TakePrefixedOnlyEncodings(b);
      var (part, rest) := TakePrefixed(b).value;
      SegmentsOnlyEncodings(rest);
      assert DecodeSegments(b).value[1..] == DecodeSegments(rest).value;
    }
  }

  lemma SegmentsInjective(a: seq<Blob>, b: seq<Blob>)
    requires EncodeSegments(a) == EncodeSegments(b)
    ensures a == b
  {
    SegmentsRoundTrip(a);
    SegmentsRoundTrip(b);
  }

  // ----- tagged fields -----

  datatype Field =
    | BytesField(data: Blob)
    | U64Field(v64: u64)
    | U32Field(v32: u32)
    | BoolField(flag: bool)
    | NoneField
    | SomeField(present: Blob)
    | ListField(items: seq<Blob>)

  // A list's element count must fit its 32-bit prefix.
  predicate Encodable(f: Field) {
    f.ListField? ==> |f.items| <= U32_MAX
  }

  function EncodeField(f: Field): Bytes
    requires Encodable(f)
  {
    match f
    case BytesField(d) => [0] + Prefixed(d)
    case U64Field(v) => [1] + Prefixed(Be8(v))
    case U32Field(v) => [2] + Prefixed(Be4(v))
    case BoolField(v) => [3] + Prefixed([if v then 1 else 0])
    case NoneField => [4]
    case SomeField(d) => [5] + Prefixed(d)
    case ListField(items) => [6] + Be4(|items|) + EncodeSegments(items)
  }

  predicate AllEncodable(fields: seq<Field>) {
    forall f <- fields :: Encodable(f)
  }

  function EncodeFields(fields: seq<Field>): Bytes
    requires AllEncodable(fields)
  {
    if fields == [] then [] else EncodeField(fields[0]) + EncodeFields(fields[1..])
  }

  lemma TaggedLayout(tag: u8, d: Blob)
    ensures var e := [tag] + Prefixed(d); |e| > 0 && e[0] == tag && LengthThen(e[1..], d)
  {
    PrefixedLayout(d);
    assert ([tag] + Prefixed(d))[1..] == Prefixed(d);
  }

  lemma U64Layout(v: u64)
    ensures var e := EncodeField(U64Field(v)); |e| == 13 && e[..5] == [1, 0, 0, 0, 8] && BigEndian8(e[5..], v)
  {
    Be8Places(v);
    assert EncodeField(U64Field(v))[5..] == Be8(v);
  }

  lemma U32Layout(v: u32)
    ensures var e := EncodeField(U32Field(v)); |e| == 9 && e[..5] == [2, 0, 0, 0, 4] && BigEndian4(e[5..], v)
  {
    Be4Places(v);
    assert EncodeField(U32Field(v))[5..] == Be4(v);
  }

  lemma ListLayout(items: seq<Blob>)
    requires |items| <= U32_MAX
    ensures var e := EncodeField(ListField(items));
            |e| >= 5 && e[0] == 6 && BigEndian4(e[1..5], |items|) && e[5..] == EncodeSegments(items)
  {
    Be4Places(|items|);
    ListParts([6], Be4(|items|), EncodeSegments(items), []);
    assert EncodeField(ListField(items)) == [6] + Be4(|items|) + EncodeSegments(items) + [];
  }

  // Each kind of field has its tag byte, then its length and content; a list has its element
  // count and then its elements.
  lemma FieldLayout(f: Field)
    requires Encodable(f)
    ensures var e := EncodeField(f);
            match f
            case BytesField(d) => |e| > 0 && e[0] == 0 && LengthThen(e[1..], d)
            case U64Field(v) => |e| == 13 && e[..5] == [1, 0, 0, 0, 8] && BigEndian8(e[5..], v)
            case U32Field(v) => |e| == 9 && e[..5] == [2, 0, 0, 0, 4] && BigEndian4(e[5..], v)
            case BoolField(v) => e == [3, 0, 0, 0, 1, if v then 1 else 0]
            case NoneField => e == [4]
            case SomeField(d) => |e| > 0 && e[0] == 5 && LengthThen(e[1..], d)
            case ListField(items) =>
              |e| >= 5 && e[0] == 6 && BigEndian4(e[1..5], |items|) && e[5..] == EncodeSegments(items)
  {
    match f
    case BytesField(d) => TaggedLayout(0, d);
    case U64Field(v) => U64Layout(v);
    case U32Field(v) => U32Layout(v);
    case BoolField(_) =>
    case NoneField =>
    case SomeField(d) => TaggedLayout(5, d);
    case ListField(items) => ListLayout(items);
  }

  // Read exactly n length-prefixed values off the front.
  function TakeItems(n: nat, b: Bytes): Option<(seq<Blob>, Bytes)> {
    if n == 0 then Some(([], b)) else
      match TakePrefixed(b)
      case None => None
      case Some((item, rest)) =>
        match TakeItems(n - 1, rest)
        case None => None
        case Some((items, tail)) => Some(([item] + items, tail))
  }

  // A field other than None and List, from its tag and content.
  function ScalarField(tag: u8, d: Blob): Option<Field> {
    if tag == 0 then Some(BytesField(d))
    else if tag == 1 && |d| == 8 then Some(U64Field(FromBe8(d)))
    else if tag == 2 && |d| == 4 then Some(U32Field(FromBe4(d)))
    else if tag == 3 && d == [0] then Some(BoolField(false))
    else if tag == 3 && d == [1] then Some(BoolField(true))
    else if tag == 5 then Some(SomeField(d))
    else None
  }

  // Read one field off the front.
  function TakeField(b: Bytes): Option<(Field, Bytes)> {
    if b == [] then None
    else if b[0] == 4 then Some((NoneField, b[1..]))
    else if b[0] == 6 then
      if |b| < 5 then None else
        match TakeItems(FromBe4(b[1..5]), b[5..])
        case None => None
        case Some((items, rest)) => Some((ListField(items), rest))
    else
      match TakePrefixed(b[1..])
      case None => None
      case Some((d, rest)) =>
        match ScalarField(b[0], d)
        case None => None
        case Some(f) => Some((f, rest))
  }

  lemma {:induction false} TakeItemsInverse(items: seq<Blob>, rest: Bytes)
    ensures TakeItems(|items|, EncodeSegments(items) + rest) == Some((items, rest))
  {
    if items != [] {
      var more := EncodeSegments(items[1..]) + rest;
      assert EncodeSegments(items) + rest == Prefixed(items[0]) + more;
      TakePrefixedInverse(items[0], more);
      TakeItemsInverse(items[1..], rest);
      assert items == [items[0]] + items[1..];
    } else {
      assert EncodeSegments(items) + rest == rest;
    }
  }

  lemma {:induction false} TakeItemsOnlyEncodings(n: nat, b: Bytes)
    requires TakeItems(n, b).Some?
    ensures var (items, rest) := TakeItems(n, b).value;
            |items| == n && b == EncodeSegments(items) + rest
  {
    if n > 0 {
      TakePrefixedOnlyEncodings(b);
      var (item, rest) := TakePrefixed(b).value;
      TakeItemsOnlyEncodings(n - 1, rest);
      var (items, tail) := TakeItems(n, b).value;
      assert items[1..] == TakeItems(n - 1, rest).value.0;
    }
  }

  predicate Scalar(f: Field) { !f.NoneField? && !f.ListField? }

  function Tag(f: Field): u8
    requires Scalar(f)
  {
    match f
    case BytesField(_) => 0
    case U64Field(_) => 1
    case U32Field(_) => 2
    case BoolField(_) => 3
    case SomeField(_) => 5
  }

  function Content(f: Field): Blob
    requires Scalar(f)
  {
    match f
    case BytesField(d) => d
    case U64Field(v) => Be8(v)
    case U32Field(v) => Be4(v)
    case BoolField(v) => [if v then 1 else 0]
    case SomeField(d) => d
  }

  lemma ScalarInverse(f: Field)
    requires Scalar(f)
    ensures EncodeField(f) == [Tag(f)] + Prefixed(Content(f))
    ensures ScalarField(Tag(f), Content(f)) == Some(f)
  {
    if f.U64Field? { Be8Decodes(f.v64); }
    if f.U32Field? { Be4Decodes(f.v32); }
  }

  lemma ScalarOnlyEncodings(tag: u8, d: Blob)
    requires ScalarField(tag, d).Some?
    ensures var f := ScalarField(tag, d).value; Scalar(f) && Tag(f) == tag && Content(f) == d
  {
    if tag == 1 { Be8Encodes(d); }
    if tag == 2 { Be4Encodes(d); }
  }

  lemma TakeFieldInverse(f: Field, rest: Bytes)
    requires Encodable(f)
    ensures TakeField(EncodeField(f) + rest) == Some((f, rest))
  {
    if f.NoneField? {
      assert (EncodeField(f) + rest)[1..] == rest;
    } else if f.ListField? {
      TakeListInverse(f.items, rest);
    } else {
      ScalarInverse(f);
      TakeScalarInverse(f, [Tag(f)] + Prefixed(Content(f)) + rest, rest);
    }
  }

  lemma TakeScalarInverse(f: Field, b: Bytes, rest: Bytes)
    requires Scalar(f) && b == [Tag(f)] + Prefixed(Content(f)) + rest
    requires ScalarField(Tag(f), Content(f)) == Some(f)
    ensures TakeField(b) == Some((f, rest))
  {
    assert b[0] == Tag(f) && b[1..] == Prefixed(Content(f)) + rest;
    TakePrefixedInverse(Content(f), rest);
  }

  lemma TakeListInverse(items: seq<Blob>, rest: Bytes)
    requires |items| <= U32_MAX
    ensures TakeField(EncodeField(ListField(items)) + rest) == Some((ListField(items), rest))
  {
    TakeItemsInverse(items, rest);
    Be4Decodes(|items|);
    ListParts([6], Be4(|items|), EncodeSegments(items), rest);
  }

  lemma ListParts(tag: Bytes, count: Bytes, content: Bytes, rest: Bytes)
    requires |tag| == 1 && |count| == 4
    ensures var b := tag + count + content + rest;
            b[0] == tag[0] && b[1..5] == count && b[5..] == content + rest
  {
  }

  lemma TakeFieldOnlyEncodings(b: Bytes)
    requires TakeField(b).Some?
    ensures var (f, rest) := TakeField(b).value;
            Encodable(f) && b == EncodeField(f) + rest && |rest| < |b|
  {
    assert b == [b[0]] + b[1..];
    if b[0] == 6 {
      TakeListOnlyEncodings(b);
    } else if b[0] != 4 {
      TakeScalarOnlyEncodings(b);
    }
  }

  lemma TakeListOnlyEncodings(b: Bytes)
    requires TakeField(b).Some? && b[0] == 6
    ensures var (f, rest) := TakeField(b).value;
            Encodable(f) && b == EncodeField(f) + rest && |rest| < |b|
  {
    TakeItemsOnlyEncodings(FromBe4(b[1..5]), b[5..]);
    Be4Encodes(b[1..5]);
    assert b == [6] + b[1..5] + b[5..];
  }

  lemma TakeScalarOnlyEncodings(b: Bytes)
    requires TakeField(b).Some? && b[0] != 4 && b[0] != 6
    ensures var (f, rest) := TakeField(b).value;
            Encodable(f) && b == EncodeField(f) + rest && |rest| < |b|
  {
    TakePrefixedOnlyEncodings(b[1..]);
    var (d, rest) := TakePrefixed(b[1..]).value;
    ScalarOnlyEncodings(b[0], d);
    ScalarInverse(ScalarField(b[0], d).value);
    assert b == [b[0]] + (Prefixed(d) + rest);
  }

  function DecodeFields(b: Bytes): Option<seq<Field>>
    decreases |b|
  {
    if b == [] then Some([]) else
      match TakeField(b)
      case None => None
      case Some((f, rest)) =>
        TakeFieldOnlyEncodings(b);
        match DecodeFields(rest)
        case None => None
        case Some(fields) => Some([f] + fields)
  }

  // The decoder recovers the exact field list, so no two lists share a pre-image.
  lemma {:induction false} FieldsRoundTrip(fields: seq<Field>)
    requires AllEncodable(fields)
    ensures DecodeFields(EncodeFields(fields)) == Some(fields)
  {
    if fields != [] {
      TakeFieldInverse(fields[0], EncodeFields(fields[1..]));
      FieldsRoundTrip(fields[1..]);
      assert fields == [fields[0]] + fields[1..];
    }
  }

  lemma {:induction false} FieldsOnlyEncodings(b: Bytes)
    requires DecodeFields(b).Some?
    ensures AllEncodable(DecodeFields(b).value)
    ensures EncodeFields(DecodeFields(b).value) == b
    decreases |b|
  {
    if b != [] {
      TakeFieldOnlyEncodings(b);
      var (f, rest) := TakeField(b).value;
      FieldsOnlyEncodings(rest);
      assert DecodeFields(b).value[1..] == DecodeFields(rest).value;
    }
  }

  lemma FieldsInjective(a: seq<Field>, b: seq<Field>)
    requires AllEncodable(a) && AllEncodable(b)
    requires EncodeFields(a) == EncodeFields(b)
    ensures a == b
  {
    FieldsRoundTrip(a);
    FieldsRoundTrip(b);
  }

  // ----- attestation payloads -----

  const MAX_PAYLOAD_SIZE: nat := 4096

  // "anchorkit_attestation_v1"
  const ATTESTATION_DOMAIN: Bytes :=
    [97, 110, 99, 104, 111, 114, 107, 105, 116, 95, 97, 116, 116, 101, 115, 116, 97, 116, 105, 111, 110, 95, 118, 49]

  predicate ValidPayloadData(data: Bytes) {
    0 < |data| <= MAX_PAYLOAD_SIZE
  }

  function EncodePayload(subject: Bytes, timestamp: u64, data: Bytes): Bytes {
    ATTESTATION_DOMAIN + subject + Be8(timestamp) + data
  }

  // The XDR form of addresses, seen only through what the encoding relies on: no address's
  // bytes are a prefix of another's.
  ghost predicate PrefixFree<Address(!new)>(xdr: Address -> Bytes) {
    forall a, b :: xdr(a) <= xdr(b) ==> a == b
  }

  lemma CancelPrefix(p: Bytes, a: Bytes, b: Bytes)
    requires p + a == p + b
    ensures a == b
  {
    assert a == (p + a)[|p|..] && b == (p + b)[|p|..];
  }

  lemma ComparablePrefixes(a: Bytes, x: Bytes, b: Bytes, y: Bytes)
    requires a + x == b + y
    ensures a <= b || b <= a
  {
    var m := Min(|a|, |b|);
    assert a[..m] == (a + x)[..m] && b[..m] == (b + y)[..m];
  }

  lemma PayloadInjective<Address(!new)>(
      xdr: Address -> Bytes, s1: Address, t1: u64, d1: Bytes, s2: Address, t2: u64, d2: Bytes)
    requires PrefixFree(xdr)
    requires EncodePayload(xdr(s1), t1, d1) == EncodePayload(xdr(s2), t2, d2)
    ensures s1 == s2 && t1 == t2 && d1 == d2
  {
    PayloadParts(xdr(s1), t1, d1);
    PayloadParts(xdr(s2), t2, d2);
    var r1, r2 := Be8(t1) + d1, Be8(t2) + d2;
    CancelPrefix(ATTESTATION_DOMAIN, xdr(s1) + r1, xdr(s2) + r2);
    ComparablePrefixes(xdr(s1), r1, xdr(s2), r2);
    CancelPrefix(xdr(s1), r1, r2);
    assert r1[..8] == Be8(t1) && r2[..8] == Be8(t2);
    Be8Decodes(t1);
    Be8Decodes(t2);
    CancelPrefix(Be8(t1), d1, d2);
  }

  lemma PayloadParts(subject: Bytes, timestamp: u64, data: Bytes)
    ensures EncodePayload(subject, timestamp, data) == ATTESTATION_DOMAIN + (subject + (Be8(timestamp) + data))
  {
  }

  // Domain text, subject, timestamp and data follow each other.
  lemma PayloadLayout(subject: Bytes, timestamp: u64, data: Bytes)
    ensures var e, domain, n := EncodePayload(subject, timestamp, data), "anchorkit_attestation_v1", |subject|;
            && |domain| == 24 && |e| == 32 + n + |data|
            && (forall i :: 0 <= i < 24 ==> e[i] == domain[i] as int)
            && e[24..24 + n] == subject
            && BigEndian8(e[24 + n..32 + n], timestamp)
            && e[32 + n..] == data
  {
    var e, n := EncodePayload(subject, timestamp, data), |subject|;
    Be8Places(timestamp);
    PayloadParts(subject, timestamp, data);
    assert e[24..24 + n] == subject;
    assert e[24 + n..32 + n] == Be8(timestamp);
    assert e[32 + n..] == data;
    assert e[..24] == ATTESTATION_DOMAIN;
    assert forall i :: 0 <= i < 24 ==> e[i] == e[..24][i];
  }

  // Big-endian value of the first four domain bytes, "anch".
  const DOMAIN_AS_LENGTH: nat := 0x616E_6368

  // No attestation pre-image is a storage-key pre-image: read as a segment length, the domain
  // asks for far more bytes than a bounded subject and a valid payload supply.
  lemma PayloadIsNoStorageKey(subject: Bytes, timestamp: u64, data: Bytes)
    requires ValidPayloadData(data)
    requires |subject| + |ATTESTATION_DOMAIN| + 8 + MAX_PAYLOAD_SIZE < DOMAIN_AS_LENGTH
    ensures DecodeSegments(EncodePayload(subject, timestamp, data)).None?
    ensures forall parts: seq<Blob> :: EncodeSegments(parts) != EncodePayload(subject, timestamp, data)
  {
    var b := EncodePayload(subject, timestamp, data);
    assert b[..4] == ATTESTATION_DOMAIN[..4] == [97, 110, 99, 104];
    assert FromBe4(b[..4]) == DOMAIN_AS_LENGTH;
    forall parts: seq<Blob> ensures EncodeSegments(parts) != b {
      SegmentsRoundTrip(parts);
    }
  }

  // Nor is it a canonical-field pre-image: its first byte is no field tag.
  lemma PayloadIsNoFieldList(subject: Bytes, timestamp: u64, data: Bytes)
    ensures DecodeFields(EncodePayload(subject, timestamp, data)).None?
    ensures forall fields: seq<Field> | AllEncodable(fields) ::
              EncodeFields(fields) != EncodePayload(subject, timestamp, data)
  {
    var b := EncodePayload(subject, timestamp, data);
    assert b[0] == ATTESTATION_DOMAIN[0] == 97;
    forall fields: seq<Field> | AllEncodable(fields) ensures EncodeFields(fields) != b {
      FieldsRoundTrip(fields);
    }
  }
}

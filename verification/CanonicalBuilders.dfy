// The loops that grow a byte buffer, proved to build exactly the encodings.

module CanonicalBuilders {
  import opened Words
  import opened CanonicalEncoding

  // The growable byte object of the host.
  class Buffer {
    var bytes: Bytes

    constructor ()
      ensures bytes == []
    {
      bytes := [];
    }

    method PushBack(b: u8)
      modifies this
      ensures bytes == old(bytes) + [b]
    {
      bytes := bytes + [b];
    }

    method PushEach(bs: Bytes)
      modifies this
      ensures bytes == old(bytes) + bs
    {
      for k := 0 to |bs|
        invariant bytes == old(bytes) + bs[..k]
      {
        PushBack(bs[k]);
      }
    }

    method Append(data: Bytes)
      modifies this
      ensures bytes == old(bytes) + data
    {
      bytes := bytes + data;
    }

    method WriteLengthPrefixed(data: Blob)
      modifies this
      ensures bytes == old(bytes) + Prefixed(data)
    {
      PushEach(Be4(|data|));
      Append(data);
    }
  }

  lemma {:induction false} EncodeSegmentsSnoc(parts: seq<Blob>, last: Blob)
    ensures EncodeSegments(parts + [last]) == EncodeSegments(parts) + Prefixed(last)
  {
    if parts != [] {
      assert (parts + [last])[1..] == parts[1..] + [last];
      EncodeSegmentsSnoc(parts[1..], last);
    } else {
      assert EncodeSegments([last]) == Prefixed(last) + EncodeSegments([]);
    }
  }

  // One more field adds its bytes at the end.
  lemma {:induction false} EncodeFieldsSnoc(fields: seq<Field>, last: Field)
    requires AllEncodable(fields) && Encodable(last)
    ensures AllEncodable(fields + [last])
    ensures EncodeFields(fields + [last]) == EncodeFields(fields) + EncodeField(last)
  {
    if fields != [] {
      assert (fields + [last])[1..] == fields[1..] + [last];
      EncodeFieldsSnoc(fields[1..], last);
    } else {
      assert EncodeFields([last]) == EncodeField(last) + EncodeFields([]);
    }
  }

  lemma NextField(fields: seq<Field>, i: nat)
    requires i < |fields| && AllEncodable(fields[..i]) && Encodable(fields[i])
    ensures AllEncodable(fields[..i + 1])
    ensures EncodeFields(fields[..i + 1]) == EncodeFields(fields[..i]) + EncodeField(fields[i])
  {
    var before, last := fields[..i], fields[i];
    assert fields[..i + 1] == before + [last];
    EncodeFieldsSnoc(before, last);
  }

  // The pre-image of a storage key.  A segment too long for its prefix is refused.
  method StorageKeyPreimage(parts: seq<Bytes>) returns (r: Result<Bytes, Error>)
    ensures (exists p <- parts :: |p| > U32_MAX) ==> r == Err(ValidationError)
    ensures (forall p <- parts :: |p| <= U32_MAX) ==> r == Ok(EncodeSegments(parts))
  {
    var input := new Buffer();
    for i := 0 to |parts|
      invariant forall p <- parts[..i] :: |p| <= U32_MAX
      invariant input.bytes == EncodeSegments(parts[..i])
    {
      if |parts[i]| > U32_MAX {
        return Err(ValidationError);
      }
      EncodeSegmentsSnoc(parts[..i], parts[i]);
      assert parts[..i + 1] == parts[..i] + [parts[i]];
      input.PushEach(Be4(|parts[i]|));
      input.PushEach(parts[i]);
    }
    assert parts[..|parts|] == parts;
    return Ok(input.bytes);
  }

  // The pre-image of a canonical hash.  A list too long for its count is refused.
  method CanonicalPreimage(fields: seq<Field>) returns (r: Result<Bytes, Error>)
    ensures !AllEncodable(fields) ==> r == Err(ValidationError)
    ensures AllEncodable(fields) ==> r == Ok(EncodeFields(fields))
  {
    var input := new Buffer();
    for i := 0 to |fields|
      invariant AllEncodable(fields[..i])
      invariant input.bytes == EncodeFields(fields[..i])
    {
      var f := fields[i];
      if f.ListField? && |f.items| > U32_MAX {
        assert !Encodable(fields[i]);
        return Err(ValidationError);
      }
      NextField(fields, i);
      WriteField(input, f);
    }
    assert fields[..|fields|] == fields;
    return Ok(input.bytes);
  }

  method WriteField(input: Buffer, f: Field)
    requires Encodable(f)
    modifies input
    ensures input.bytes == old(input.bytes) + EncodeField(f)
  {
    match f
    case BytesField(d) =>
      WriteTagged(input, 0, d);
    case U64Field(v) =>
      WriteTagged(input, 1, Be8(v));
    case U32Field(v) =>
      WriteTagged(input, 2, Be4(v));
    case BoolField(v) =>
      WriteBool(input, v);
    case NoneField =>
      input.PushBack(4);
    case SomeField(d) =>
      WriteTagged(input, 5, d);
    case ListField(items) =>
      WriteList(input, items);
  }

  method WriteTagged(input: Buffer, tag: u8, data: Blob)
    modifies input
    ensures input.bytes == old(input.bytes) + ([tag] + Prefixed(data))
  {
    input.PushBack(tag);
    input.WriteLengthPrefixed(data);
  }

  method WriteBool(input: Buffer, v: bool)
    modifies input
    ensures input.bytes == old(input.bytes) + EncodeField(BoolField(v))
  {
    input.PushBack(3);
    input.PushEach(Be4(1));
    input.PushBack(if v then 1 else 0);
  }

  method WriteList(input: Buffer, items: seq<Blob>)
    requires |items| <= U32_MAX
    modifies input
    ensures input.bytes == old(input.bytes) + EncodeField(ListField(items))
  {
    ghost var count := Be4(|items|);
    input.PushBack(6);
    input.PushEach(Be4(|items|));
    WriteItems(input, items);
    assert input.bytes == old(input.bytes) + ([6] + count + EncodeSegments(items));
  }

  method WriteItems(input: Buffer, items: seq<Blob>)
    modifies input
    ensures input.bytes == old(input.bytes) + EncodeSegments(items)
  {
    for k := 0 to |items|
      invariant input.bytes == old(input.bytes) + EncodeSegments(items[..k])
    {
      input.WriteLengthPrefixed(items[k]);
      EncodeSegmentsSnoc(items[..k], items[k]);
      assert items[..k + 1] == items[..k] + [items[k]];
    }
    assert items[..|items|] == items;
  }

  // The pre-image of an attestation payload hash.
  method PayloadPreimage(subjectXdr: Bytes, timestamp: u64, data: Bytes) returns (r: Result<Bytes, Error>)
    ensures |data| == 0 || |data| > 4096 ==> r == Err(ValidationError)
    ensures 1 <= |data| <= 4096 ==> r == Ok(EncodePayload(subjectXdr, timestamp, data))
  {
    if |data| == 0 || |data| > MAX_PAYLOAD_SIZE {
      return Err(ValidationError);
    }
    var input := new Buffer();
    input.PushEach(ATTESTATION_DOMAIN);
    input.Append(subjectXdr);
    input.PushEach(Be8(timestamp));
    input.Append(data);
    assert input.bytes == EncodePayload(subjectXdr, timestamp, data);
    return Ok(input.bytes);
  }
}

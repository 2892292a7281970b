/** Tags: a field number and a wire type packed into one varint as
    `field << 3 | wire type`. */
module Tags {
  import opened Wire
  import opened Stream
  import opened VarintCodec

  datatype Tag = Tag(field: nat, wireType: WireType)

  /** The tag varint's value; the wire type's code fills exactly the three low
      bits the shift frees, so `<< 3 |` is multiplication by 8 plus the code. */
  function TagValue(field: nat, wireType: WireType): (v: nat)
  {
    field * 8 + wireType.Code()
  }

  /** `encode_tag(field, wire_type)`: the tag varint, or nothing at all when no
      field number is given (packed list elements carry no tag). */
  function EncodeTag(field: Option<nat>, wireType: WireType): (r: seq<byte>)
    ensures r == [] <==> field.None?
  {
    if field.None? then [] else Varint(TagValue(field.value, wireType))
  }

  /** `read_tag` at position `pos`: None when the tag varint cannot be read,
      otherwise the field number (value >> 3) and the wire type named by the
      three low bits, which fails for the codes 6 and 7. */
  function TagAt(s: seq<byte>, pos: nat): (r: Step<Result<Option<Tag>, DecodeError>>)
    requires pos <= |s|
    ensures r.next == VarintAt(s, pos).next
    ensures r.value == Ok(None) <==> forall i :: pos <= i < |s| ==> s[i] >= 128
    ensures r.value.Err? <==> VarintAt(s, pos).value.Some? && VarintAt(s, pos).value.value % 8 >= 6
    ensures r.value.Err? ==> r.value.error == InvalidWireType(VarintAt(s, pos).value.value % 8)
  {
    VarintExhausted(s, pos);
    var v := VarintAt(s, pos);
    if v.value.None? then Step(Ok(None), v.next)
    else
      var wireType := WireTypeOf(v.value.value % 8);
      if wireType.None? then Step(Err(InvalidWireType(v.value.value % 8)), v.next)
      else Step(Ok(Some(Tag(v.value.value / 8, wireType.value))), v.next)
  }

  /** Any field number and any wire type, group types included, read back as
      written, and the reader stops right after the tag. */
  lemma TagRoundTrip(s: seq<byte>, pos: nat, field: nat, wireType: WireType)
    requires pos + |EncodeTag(Some(field), wireType)| <= |s|
    requires s[pos..pos + |EncodeTag(Some(field), wireType)|] == EncodeTag(Some(field), wireType)
    ensures TagAt(s, pos) == Step(Ok(Some(Tag(field, wireType))), pos + |EncodeTag(Some(field), wireType)|)
  {
    var v := TagValue(field, wireType);
    VarintRoundTrip(s, pos, v);
    TagValueParts(field, wireType);
    TagOf(s, pos, v, pos + |EncodeTag(Some(field), wireType)|);
  }

  /** The three low bits of a tag value hold the wire type's code, the rest the field number. */
  lemma TagValueParts(field: nat, wireType: WireType)
    ensures TagValue(field, wireType) % 8 == wireType.Code()
    ensures TagValue(field, wireType) / 8 == field
  {
  }

  /** A tag varint whose low bits name a wire type gives that tag. */
  lemma TagOf(s: seq<byte>, pos: nat, v: nat, next: nat)
    requires pos <= |s| && VarintAt(s, pos) == Step(Some(v), next)
    requires v % 8 <= 5
    ensures TagAt(s, pos) == Step(Ok(Some(Tag(v / 8, WireTypeOf(v % 8).value))), next)
  {
  }

  /** `read_tag(reader)` */
  method ReadTag(reader: Reader) returns (r: Result<Option<Tag>, DecodeError>)
    requires reader.Valid()
    modifies reader
    ensures reader.Valid()
    ensures Step(r, reader.pos) == TagAt(reader.data, old(reader.pos))
  {
    var value := ReadVarint(reader);
    if value.None? {
      return Ok(None);
    }
    var wireType := WireTypeOf(value.value % 8);
    if wireType.None? {
      return Err(InvalidWireType(value.value % 8));
    }
    return Ok(Some(Tag(value.value / 8, wireType.value)));
  }

  lemma TagExamples()
    ensures EncodeTag(Some(1), VARINT) == [0x08]
    ensures EncodeTag(Some(3), VARINT) == [0x18]
    ensures EncodeTag(Some(1), LEN) == [0x0A]
    ensures EncodeTag(None, LEN) == []
  {
  }
}

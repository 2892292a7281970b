/** Reading one tagged record from a byte stream, and the values the decoder
    works with. */
module Records {
  import opened Wire
  import opened Stream
  import opened VarintCodec
  import opened Tags

  /** A decoded value: an unsigned integer (VARINT), None (a VARINT payload cut
      short), raw bytes (I64, I32 and LEN payloads), or a nested message that
      such bytes turned out to parse as. */
  datatype DecodedValue =
    | Number(n: nat)
    | Missing
    | Raw(bytes: seq<byte>)
    | Message(fields: seq<(nat, Field)>)

  /** What a decoded message holds for a field number: the bare value when the
      field occurred once, the list of values in stream order otherwise. */
  datatype Field = Single(value: DecodedValue) | Repeated(values: seq<DecodedValue>)

  /** `(field number, payload)` as `read_record` returns it. */
  datatype Record = Record(field: nat, value: DecodedValue)

  /** A payload as the record reader produces it, before any sub-message inference. */
  predicate IsPayload(v: DecodedValue)
  {
    !v.Message?
  }

  /** Raw bytes shorter than `n`, or no bytes at all. */
  predicate ShorterThan(v: DecodedValue, n: nat)
  {
    v.Raw? ==> |v.bytes| < n
  }

  /** `read_record` at position `pos`: None when no tag can be read, the
      tag's error for the wire codes 6 and 7, an error for the group wire
      types, an error for a LEN length too large for the stream's `read`,
      and otherwise the field number with a payload that depends on the wire
      type: a varint for VARINT, up to 8 or 4 bytes for I64 and I32, and up
      to the declared number of bytes for LEN. */
  function RecordAt(s: seq<byte>, pos: nat): (r: Step<Result<Option<Record>, DecodeError>>)
    requires pos <= |s|
    ensures pos <= r.next <= |s|
    ensures r.value == Ok(None) <==> TagAt(s, pos).value == Ok(None)
    ensures r.value.Ok? && r.value.value.Some? ==>
      pos < r.next && IsPayload(r.value.value.value.value) && ShorterThan(r.value.value.value.value, |s| - pos)
  {
    var tag := TagAt(s, pos);
    match tag.value
    case Err(e) => Step(Err(e), tag.next)
    case Ok(None) => Step(Ok(None), tag.next)
    case Ok(Some(Tag(field, wireType))) =>
      var p := tag.next;
      match wireType
      case VARINT =>
        var v := VarintAt(s, p);
        Step(Ok(Some(Record(field, if v.value.Some? then Number(v.value.value) else Missing))), v.next)
      case I64 =>
        var e := ReadEnd(|s|, p, Some(8));
        Step(Ok(Some(Record(field, Raw(s[p..e])))), e)
      case I32 =>
        var e := ReadEnd(|s|, p, Some(4));
        Step(Ok(Some(Record(field, Raw(s[p..e])))), e)
      case LEN =>
        var n := VarintAt(s, p);
        if n.value.Some? && n.value.value >= SsizeLimit then Step(Err(LengthOverflow(n.value.value)), n.next)
        else
          var e := ReadEnd(|s|, n.next, n.value);
          Step(Ok(Some(Record(field, Raw(s[n.next..e])))), e)
      case _ => Step(Err(UnknownWireType(wireType)), p)
  }

  /** The record reader fails exactly when the tag does, when the tag names
      a group wire type, or when a LEN record declares a length of 2^63 or
      more; a record otherwise carries the tag's field number. */
  lemma RecordErrors(s: seq<byte>, pos: nat)
    requires pos <= |s|
    ensures TagAt(s, pos).value.Err? ==> RecordAt(s, pos).value == Err(TagAt(s, pos).value.error)
    ensures TagAt(s, pos).value.Ok? && TagAt(s, pos).value.value.Some? ==>
      var tag := TagAt(s, pos).value.value.value;
      var length := VarintAt(s, TagAt(s, pos).next).value;
      var overflow := tag.wireType == LEN && length.Some? && length.value >= SsizeLimit;
      (RecordAt(s, pos).value.Err? <==> tag.wireType == SGROUP || tag.wireType == EGROUP || overflow) &&
      (RecordAt(s, pos).value.Err? && !overflow ==> RecordAt(s, pos).value.error == UnknownWireType(tag.wireType)) &&
      (overflow ==> RecordAt(s, pos).value.error == LengthOverflow(length.value)) &&
      (RecordAt(s, pos).value.Ok? ==> RecordAt(s, pos).value.value.Some? && RecordAt(s, pos).value.value.value.field == tag.field)
  {
  }

  /** The fixed-width payloads are the next 8 (I64) or 4 (I32) bytes after the
      tag, or all that is left when fewer remain: a short read, not an error. */
  lemma FixedWidthPayload(s: seq<byte>, pos: nat, width: nat)
    requires pos <= |s|
    requires TagAt(s, pos).value.Ok? && TagAt(s, pos).value.value.Some?
    requires TagAt(s, pos).value.value.value.wireType == (if width == 8 then I64 else I32)
    requires width == 8 || width == 4
    ensures var p := TagAt(s, pos).next;
      RecordAt(s, pos).value.Ok? && RecordAt(s, pos).value.value.Some? &&
      RecordAt(s, pos).value.value.value.value == Raw(s[p..p + Min(width, |s| - p)]) &&
      RecordAt(s, pos).next == p + Min(width, |s| - p)
  {
  }

  /** A VARINT payload is the varint after the tag, or None when it is cut short. */
  lemma VarintPayload(s: seq<byte>, pos: nat, field: nat, p: nat, v: Option<nat>, q: nat)
    requires pos <= |s|
    requires TagAt(s, pos) == Step(Ok(Some(Tag(field, VARINT))), p)
    requires p <= |s| && VarintAt(s, p) == Step(v, q)
    ensures RecordAt(s, pos) == Step(Ok(Some(Record(field, if v.Some? then Number(v.value) else Missing))), q)
  {
  }

  /** A LEN payload is the declared number of bytes after the length varint,
      or all that is left when fewer remain (`ReadEnd`); when the length
      varint itself is cut short, the payload is the rest of the stream,
      which is nothing. A declared length of 2^63 or more is an error. */
  lemma LengthDelimitedPayload(s: seq<byte>, pos: nat, field: nat, p: nat, n: Option<nat>, q: nat)
    requires pos <= |s|
    requires TagAt(s, pos) == Step(Ok(Some(Tag(field, LEN))), p)
    requires p <= |s| && VarintAt(s, p) == Step(n, q)
    ensures q <= |s|
    ensures n.Some? && n.value >= SsizeLimit ==> RecordAt(s, pos) == Step(Err(LengthOverflow(n.value)), q)
    ensures n.None? || n.value < SsizeLimit ==>
      RecordAt(s, pos) == Step(Ok(Some(Record(field, Raw(s[q..ReadEnd(|s|, q, n)])))), ReadEnd(|s|, q, n))
    ensures n.None? ==> RecordAt(s, pos) == Step(Ok(Some(Record(field, Raw([])))), |s|)
  {
  }

  /** `read_record(reader)` */
  method ReadRecord(reader: Reader) returns (r: Result<Option<Record>, DecodeError>)
    requires reader.Valid()
    modifies reader
    ensures reader.Valid()
    ensures Step(r, reader.pos) == RecordAt(reader.data, old(reader.pos))
  {
    var tag := ReadTag(reader);
    if tag.Err? {
      return Err(tag.error);
    }
    if tag.value.None? {
      return Ok(None);
    }
    var Tag(field, wireType) := tag.value.value;
    var value: DecodedValue;
    if wireType == VARINT {
      var v := ReadVarint(reader);
      value := if v.Some? then Number(v.value) else Missing;
    } else if wireType == I64 {
      var bytes := reader.Read(Some(8));
      value := Raw(bytes);
    } else if wireType == I32 {
      var bytes := reader.Read(Some(4));
      value := Raw(bytes);
    } else if wireType == LEN {
      var length := ReadVarint(reader);
      if length.Some? && length.value >= SsizeLimit {
        return Err(LengthOverflow(length.value));
      }
      var bytes := reader.Read(length);
      value := Raw(bytes);
    } else {
      return Err(UnknownWireType(wireType));
    }
    return Ok(Some(Record(field, value)));
  }
}

/** The encoder: a tree of dynamic values (integers, text, bytes, lists and
    dicts from field number to value) turned into wire bytes. */
module Encoder {
  import opened Wire
  import opened VarintCodec
  import opened ZigZag
  import opened Tags

  /** The Python values the encoder is given. Text stands for a `str` and holds
      its UTF-8 encoding; Other stands for a value of any other type. */
  datatype Value =
    | Int(i: int)
    | Text(utf8: seq<byte>)
    | Bytes(bytes: seq<byte>)
    | List(items: seq<Value>)
    | Dict(entries: seq<(nat, Value)>)
    | Other

  /** A value the encoder accepts: nothing of another type occurs anywhere in it. */
  ghost predicate Encodable(v: Value)
  {
    match v
    case Other => false
    case List(items) => forall item :: item in items ==> Encodable(item)
    case Dict(entries) => forall e :: e in entries ==> Encodable(e.1)
    case _ => true
  }

  /** The varint an integer is written as: itself when it is non-negative, its
      ZigZag image when it is negative (non-negative values are not mapped). */
  function WireInt(i: int): (w: nat)
    ensures i >= 0 ==> w == i
    ensures i < 0 ==> w % 2 == 1 && ZigzagToSigned(w) == i
  {
    if i < 0 then SignedToZigzag(i) else i
  }

  /** A LEN record: the tag, the body's length as a varint, then the body. */
  function Delimited(field: Option<nat>, body: seq<byte>): (r: seq<byte>)
  {
    EncodeTag(field, LEN) + Varint(|body|) + body
  }

  /** `encode(data)`: a dict's records in the dict's order; anything else is a TypeError. */
  function Encode(data: Value): (r: Result<seq<byte>, EncodeError>)
    ensures r.Ok? <==> data.Dict? && Encodable(data)
    ensures !data.Dict? ==> r == Err(NotADict)
    decreases data, 1
  {
    if !data.Dict? then Err(NotADict) else EncodeEntries(data.entries)
  }

  /** The `b"".join` over a dict's entries: each entry as a record tagged with
      its key; the first entry that cannot be encoded makes the whole fail. */
  function EncodeEntries(entries: seq<(nat, Value)>): (r: Result<seq<byte>, EncodeError>)
    ensures r.Ok? <==> forall e :: e in entries ==> Encodable(e.1)
    ensures r.Err? ==> r.error == Unencodable
    decreases entries, 0
  {
    if entries == [] then Ok([])
    else
      var entry := entries[0];
      assert entry in entries && entry.1 < entry;
      assert forall e :: e in entries <==> e == entry || e in entries[1..];
      match EncodeRecord(entry.1, Some(entry.0))
      case Err(e) => Err(e)
      case Ok(head) =>
        match EncodeEntries(entries[1..])
        case Err(e) => Err(e)
        case Ok(tail) => Ok(head + tail)
  }

  /** `encode_record(data, field)`: an integer as a VARINT record; a list (its
      elements encoded untagged, one after the other), a dict (encoded as a
      message), a string (its UTF-8 bytes) or bytes as a LEN record; anything
      else is a TypeError. With no field number the tag is left out. */
  function EncodeRecord(data: Value, field: Option<nat>): (r: Result<seq<byte>, EncodeError>)
    ensures r.Ok? <==> Encodable(data)
    ensures r.Err? ==> r.error == Unencodable
    decreases data, 2
  {
    match data
    case Int(i) => Ok(EncodeTag(field, VARINT) + Varint(WireInt(i)))
    case List(items) =>
      (match EncodeItems(items)
       case Err(e) => Err(e)
       case Ok(body) => Ok(Delimited(field, body)))
    case Dict(_) =>
      (match Encode(data)
       case Err(e) => Err(e)
       case Ok(body) => Ok(Delimited(field, body)))
    case Text(utf8) => Ok(Delimited(field, utf8))
    case Bytes(bytes) => Ok(Delimited(field, bytes))
    case Other => Err(Unencodable)
  }

  /** The packed body of a list: every element encoded without a tag, in order. */
  function EncodeItems(items: seq<Value>): (r: Result<seq<byte>, EncodeError>)
    ensures r.Ok? <==> forall item :: item in items ==> Encodable(item)
    ensures r.Err? ==> r.error == Unencodable
    decreases items, 0
  {
    if items == [] then Ok([])
    else
      assert items[0] in items;
      assert forall item :: item in items <==> item == items[0] || item in items[1..];
      match EncodeRecord(items[0], None)
      case Err(e) => Err(e)
      case Ok(head) =>
        match EncodeItems(items[1..])
        case Err(e) => Err(e)
        case Ok(tail) => Ok(head + tail)
  }

  /** A record is its tag followed by the value encoded without a tag, the
      form in which a list's packed body holds each of its elements. */
  lemma Untagged(v: Value, field: nat)
    requires Encodable(v)
    ensures EncodeRecord(v, Some(field)).value ==
      EncodeTag(Some(field), if v.Int? then VARINT else LEN) + EncodeRecord(v, None).value
  {
    match v
    case Int(_) =>
    case Text(_) =>
    case Bytes(_) =>
    case List(_) =>
    case Dict(_) =>
  }

  /** Only negative integers are ZigZag-mapped, so a negative integer is
      written exactly as the non-negative integer that is its ZigZag image:
      -1 and 1 give the same bytes, and the sign cannot be recovered. */
  lemma SignIsLost(i: int, field: Option<nat>)
    requires i < 0
    ensures SignedToZigzag(i) > 0
    ensures EncodeRecord(Int(i), field) == EncodeRecord(Int(SignedToZigzag(i)), field)
  {
  }

  /** A one-entry dict encodes as that entry's record. */
  lemma EncodeOneEntry(key: nat, value: Value)
    ensures Encode(Dict([(key, value)])) == EncodeRecord(value, Some(key))
  {
    var entries := [(key, value)];
    assert entries[0] == (key, value) && entries[1..] == [];
    assert EncodeEntries(entries[1..]) == Ok([]);
    assert Encode(Dict(entries)) == EncodeEntries(entries);
    match EncodeRecord(value, Some(key))
    case Err(e) =>
    case Ok(head) => assert head + [] == head;
  }

  lemma EncodeIntExamples()
    ensures Encode(Dict([(1, Int(150))])) == Ok([0x08, 0x96, 0x01])
    ensures Encode(Dict([(1, Int(-1))])) == Ok([0x08, 0x01])
    ensures Encode(Dict([(1, Int(1))])) == Ok([0x08, 0x01])
  {
    VarintExamples();
    assert EncodeTag(Some(1), VARINT) == [0x08];
    assert SignedToZigzag(-1) == 1;
    assert WireInt(150) == 150 && WireInt(-1) == 1 && WireInt(1) == 1;
    assert EncodeRecord(Int(150), Some(1)) == Ok(EncodeTag(Some(1), VARINT) + Varint(150));
    assert EncodeRecord(Int(-1), Some(1)) == Ok(EncodeTag(Some(1), VARINT) + Varint(1));
    assert [0x08] + [0x96, 0x01] == [0x08, 0x96, 0x01];
    assert [0x08] + [0x01] == [0x08, 0x01];
    EncodeOneEntry(1, Int(150));
    EncodeOneEntry(1, Int(-1));
    EncodeOneEntry(1, Int(1));
  }

  lemma EncodeNestedExample()
    ensures Encode(Dict([(1, Dict([(2, Int(7))]))])) == Ok([0x0A, 0x02, 0x10, 0x07])
  {
    assert EncodeTag(Some(2), VARINT) == [0x10];
    assert EncodeTag(Some(1), LEN) == [0x0A];
    assert Varint(2) == [0x02] && Varint(7) == [0x07];
    assert WireInt(7) == 7;
    var inner := Dict([(2, Int(7))]);
    assert EncodeTag(Some(2), VARINT) + Varint(WireInt(7)) == [0x10, 0x07];
    EncodeOneEntry(2, Int(7));
    assert Encode(inner) == Ok([0x10, 0x07]);
    assert Delimited(Some(1), [0x10, 0x07]) == [0x0A, 0x02, 0x10, 0x07];
    EncodeOneEntry(1, inner);
  }

  /** A list is packed: its elements without tags, inside one LEN record. */
  lemma EncodeListExample()
    ensures Encode(Dict([(4, List([Int(1), Int(2)]))])) == Ok([0x22, 0x02, 0x01, 0x02])
  {
    assert EncodeTag(Some(4), LEN) == [0x22];
    assert EncodeTag(None, VARINT) == [];
    assert Varint(1) == [0x01] && Varint(2) == [0x02];
    assert WireInt(1) == 1 && WireInt(2) == 2;
    var items := [Int(1), Int(2)];
    assert items[0] == Int(1) && items[1..] == [Int(2)];
    assert [Int(2)][0] == Int(2) && [Int(2)][1..] == [];
    assert EncodeTag(None, VARINT) + Varint(WireInt(1)) == [0x01];
    assert EncodeTag(None, VARINT) + Varint(WireInt(2)) == [0x02];
    assert EncodeItems([]) == Ok([]);
    assert [0x02] + [] == [0x02];
    assert EncodeItems([Int(2)]) == Ok([0x02]);
    assert [0x01] + [0x02] == [0x01, 0x02];
    assert EncodeItems(items) == Ok([0x01, 0x02]);
    assert Delimited(Some(4), [0x01, 0x02]) == [0x22, 0x02, 0x01, 0x02];
    EncodeOneEntry(4, List(items));
  }

  lemma EncodeErrorExamples()
    ensures Encode(Int(5)) == Err(NotADict)
    ensures Encode(Dict([(1, Other)])) == Err(Unencodable)
  {
    EncodeOneEntry(1, Other);
  }
}

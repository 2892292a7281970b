/** What the decoder makes of the encoder's output. The codec has no schema,
    so the round trip is exact only for messages of integers and nested
    messages with distinct field numbers: integers come back as their
    (ZigZag-mapped) varint, nested messages as decoded messages, and every
    field as a bare value. */
module RoundTrip {
  import opened Wire
  import opened Stream
  import opened VarintCodec
  import opened Tags
  import opened Records
  import opened Encoder
  import opened Decoder

  /** The payload the record reader yields for an encodable value written as
      a record: the varint for an integer, the LEN body for everything else. */
  function WireValue(v: Value): (r: DecodedValue)
    requires Encodable(v)
    ensures IsPayload(r)
  {
    match v
    case Int(i) => Number(WireInt(i))
    case Text(utf8) => Raw(utf8)
    case Bytes(bytes) => Raw(bytes)
    case List(items) => Raw(EncodeItems(items).value)
    case Dict(entries) => Raw(EncodeEntries(entries).value)
  }

  /** The three parts of bytes found at `pos`, each where it lies. */
  lemma Parts(s: seq<byte>, pos: nat, x: seq<byte>, y: seq<byte>, z: seq<byte>) returns (p: nat, q: nat)
    requires pos + |x + y + z| <= |s| && s[pos..pos + |x + y + z|] == x + y + z
    ensures p == pos + |x| && q == p + |y| && q + |z| <= |s|
    ensures s[pos..p] == x
    ensures s[p..q] == y
    ensures s[q..q + |z|] == z
  {
    p, q := pos + |x|, pos + |x| + |y|;
    var w := x + y + z;
    assert forall k :: 0 <= k < |w| ==> s[pos + k] == w[k] by {
      forall k | 0 <= k < |w| ensures s[pos + k] == w[k] {
        assert s[pos..pos + |w|][k] == w[k];
      }
    }
    assert forall k :: 0 <= k < |x| ==> w[k] == x[k];
    assert forall k :: 0 <= k < |y| ==> w[|x| + k] == y[k];
    assert forall k :: 0 <= k < |z| ==> w[|x| + |y| + k] == z[k];
  }

  /** The two parts of bytes found at `pos`, each where it lies. */
  lemma Halves(s: seq<byte>, pos: nat, x: seq<byte>, y: seq<byte>) returns (mid: nat)
    requires pos + |x + y| <= |s| && s[pos..pos + |x + y|] == x + y
    ensures mid == pos + |x| && mid + |y| <= |s|
    ensures s[pos..pos + |x|] == x
    ensures s[mid..mid + |y|] == y
  {
    mid := pos + |x|;
    var w := x + y;
    assert forall k :: 0 <= k < |w| ==> s[pos + k] == w[k] by {
      forall k | 0 <= k < |w| ensures s[pos + k] == w[k] {
        assert s[pos..pos + |w|][k] == w[k];
      }
    }
    assert forall k :: 0 <= k < |x| ==> w[k] == x[k];
    assert forall k :: 0 <= k < |y| ==> w[|x| + k] == y[k];
  }

  /** A VARINT record written at `pos` reads back as its field number and value. */
  lemma ReadBackVarint(s: seq<byte>, pos: nat, field: nat, v: nat)
    requires var enc := EncodeTag(Some(field), VARINT) + Varint(v);
      pos + |enc| <= |s| && s[pos..pos + |enc|] == enc
    ensures RecordAt(s, pos) ==
      Step(Ok(Some(Record(field, Number(v)))), pos + |EncodeTag(Some(field), VARINT) + Varint(v)|)
  {
    var tag := EncodeTag(Some(field), VARINT);
    var value := Varint(v);
    var p := Halves(s, pos, tag, value);
    TagRoundTrip(s, pos, field, VARINT);
    VarintRoundTrip(s, p, v);
    VarintPayload(s, pos, field, p, Some(v), p + |value|);
  }

  /** A LEN record written at `pos` reads back as its field number and body. */
  lemma ReadBackDelimited(s: seq<byte>, pos: nat, field: nat, body: seq<byte>)
    requires var enc := Delimited(Some(field), body);
      pos + |enc| <= |s| && s[pos..pos + |enc|] == enc
    requires |body| < SsizeLimit
    ensures RecordAt(s, pos) ==
      Step(Ok(Some(Record(field, Raw(body)))), pos + |Delimited(Some(field), body)|)
  {
    var tag := EncodeTag(Some(field), LEN);
    var length := Varint(|body|);
    assert |Delimited(Some(field), body)| == |tag| + |length| + |body|;
    var p, q := Parts(s, pos, tag, length, body);
    TagRoundTrip(s, pos, field, LEN);
    VarintRoundTrip(s, p, |body|);
    DelimitedAt(s, pos, field, p, q, body);
  }

  /** A LEN record whose tag, length and body have been found in place. */
  lemma DelimitedAt(s: seq<byte>, pos: nat, field: nat, p: nat, q: nat, body: seq<byte>)
    requires pos <= p <= q && q + |body| <= |s|
    requires TagAt(s, pos) == Step(Ok(Some(Tag(field, LEN))), p)
    requires VarintAt(s, p) == Step(Some(|body|), q)
    requires s[q..q + |body|] == body && |body| < SsizeLimit
    ensures RecordAt(s, pos) == Step(Ok(Some(Record(field, Raw(body)))), q + |body|)
  {
    LengthDelimitedPayload(s, pos, field, p, Some(|body|), q);
    assert ReadEnd(|s|, q, Some(|body|)) == q + |body|;
  }

  /** Any encodable value written as a record at `pos` reads back, whatever
      follows it, as its field number and wire payload, and the reader stops
      right after the record. The input is shorter than 2^63 bytes, as every
      byte string Python can hold is, so no LEN length overflows. */
  lemma ReadBackRecord(s: seq<byte>, pos: nat, field: nat, v: Value)
    requires Encodable(v) && |s| < SsizeLimit
    requires var enc := EncodeRecord(v, Some(field)).value;
      pos + |enc| <= |s| && s[pos..pos + |enc|] == enc
    ensures RecordAt(s, pos) ==
      Step(Ok(Some(Record(field, WireValue(v)))), pos + |EncodeRecord(v, Some(field)).value|)
  {
    match v
    case Int(i) => ReadBackVarint(s, pos, field, WireInt(i));
    case Text(utf8) => ReadBackDelimited(s, pos, field, utf8);
    case Bytes(bytes) => ReadBackDelimited(s, pos, field, bytes);
    case List(items) => ReadBackDelimited(s, pos, field, EncodeItems(items).value);
    case Dict(entries) => ReadBackDelimited(s, pos, field, EncodeEntries(entries).value);
  }

  /** The records an encodable dict's entries are written as, in order. */
  function RecordsOf(entries: seq<(nat, Value)>): (r: seq<Record>)
    requires forall e :: e in entries ==> Encodable(e.1)
    ensures |r| == |entries|
  {
    if entries == [] then []
    else
      assert entries[0] in entries;
      [Record(entries[0].0, WireValue(entries[0].1))] + RecordsOf(entries[1..])
  }

  /** Each entry is written as one record: its key and its wire payload. */
  lemma {:induction false} RecordsOfEach(entries: seq<(nat, Value)>)
    requires forall e :: e in entries ==> Encodable(e.1)
    ensures forall i :: 0 <= i < |entries| ==>
      RecordsOf(entries)[i] == Record(entries[i].0, WireValue(entries[i].1))
  {
    if entries != [] {
      EntriesHead(entries);
      RecordsOfEach(entries[1..]);
    }
  }

  /** Reading an encoded dict to its end yields one record per entry, in the
      dict's order, and no error. */
  lemma {:induction false} ReadBackEntries(s: seq<byte>, pos: nat, entries: seq<(nat, Value)>)
    requires forall e :: e in entries ==> Encodable(e.1)
    requires |s| < SsizeLimit
    requires pos <= |s| && s[pos..] == EncodeEntries(entries).value
    ensures RecordsFrom(s, pos) == Ok(RecordsOf(entries))
    decreases entries
  {
    if entries == [] {
      assert pos == |s|;
      RecordsEnd(s);
    } else {
      var record, next := ReadBackFirst(s, pos, entries);
      ReadBackEntries(s, next, entries[1..]);
      RecordsCons(s, pos, record, next, RecordsOf(entries[1..]));
    }
  }

  /** The first entry of an encoded dict reads back as its record, and the
      encoding of the other entries follows it. */
  lemma ReadBackFirst(s: seq<byte>, pos: nat, entries: seq<(nat, Value)>) returns (record: Record, next: nat)
    requires entries != [] && forall e :: e in entries ==> Encodable(e.1)
    requires |s| < SsizeLimit && pos <= |s| && s[pos..] == EncodeEntries(entries).value
    ensures forall e :: e in entries[1..] ==> Encodable(e.1)
    ensures next <= |s| && s[next..] == EncodeEntries(entries[1..]).value
    ensures RecordAt(s, pos) == Step(Ok(Some(record)), next)
    ensures RecordsOf(entries) == [record] + RecordsOf(entries[1..])
  {
    EntriesHead(entries);
    var head := EncodeRecord(entries[0].1, Some(entries[0].0)).value;
    Split(s, pos, head, EncodeEntries(entries[1..]).value);
    ReadBackRecord(s, pos, entries[0].0, entries[0].1);
    record, next := Record(entries[0].0, WireValue(entries[0].1)), pos + |head|;
  }

  /** A dict's first entry and the rest: each encodable, written one after
      the other, and read back one after the other. */
  lemma EntriesHead(entries: seq<(nat, Value)>)
    requires entries != [] && forall e :: e in entries ==> Encodable(e.1)
    ensures Encodable(entries[0].1)
    ensures forall e :: e in entries[1..] ==> Encodable(e.1)
    ensures EncodeEntries(entries).value ==
      EncodeRecord(entries[0].1, Some(entries[0].0)).value + EncodeEntries(entries[1..]).value
    ensures RecordsOf(entries) == [Record(entries[0].0, WireValue(entries[0].1))] + RecordsOf(entries[1..])
  {
    assert entries[0] in entries;
    assert forall e :: e in entries[1..] ==> e in entries;
  }

  lemma Split(s: seq<byte>, pos: nat, head: seq<byte>, tail: seq<byte>)
    requires pos <= |s| && s[pos..] == head + tail
    ensures pos + |head| <= |s|
    ensures s[pos..pos + |head|] == head && s[pos + |head|..] == tail
  {
    assert s[pos..pos + |head|] == s[pos..][..|head|];
    assert s[pos + |head|..] == s[pos..][|head|..];
  }

  /** Varints read one after another from `pos` to the end of the input, as a
      reader of a packed list of integers reads them. */
  function VarintsFrom(s: seq<byte>, pos: nat): (r: seq<Option<nat>>)
    requires pos <= |s|
    ensures r == [] <==> pos == |s|
    decreases |s| - pos
  {
    if pos == |s| then []
    else
      var step := VarintAt(s, pos);
      [step.value] + VarintsFrom(s, step.next)
  }

  /** A list of integers is packed as its elements' varints, untagged and in
      order: reading varints from where the body starts to its end gives back
      each element's wire integer and nothing else. */
  lemma {:induction false} ReadBackPacked(s: seq<byte>, pos: nat, items: seq<Value>)
    requires forall item :: item in items ==> item.Int?
    requires pos <= |s| && s[pos..] == EncodeItems(items).value
    ensures |VarintsFrom(s, pos)| == |items|
    ensures forall i :: 0 <= i < |items| ==> VarintsFrom(s, pos)[i] == Some(WireInt(items[i].i))
    decreases items
  {
    if items == [] {
      assert pos == |s|;
    } else {
      var next := ReadBackFirstItem(s, pos, items);
      ReadBackPacked(s, next, items[1..]);
    }
  }

  /** The first element of a packed list of integers reads back as its
      varint, and the packing of the other elements follows it. */
  lemma ReadBackFirstItem(s: seq<byte>, pos: nat, items: seq<Value>) returns (next: nat)
    requires items != [] && forall item :: item in items ==> item.Int?
    requires pos <= |s| && s[pos..] == EncodeItems(items).value
    ensures forall item :: item in items[1..] ==> item.Int?
    ensures next <= |s| && s[next..] == EncodeItems(items[1..]).value
    ensures VarintsFrom(s, pos) == [Some(WireInt(items[0].i))] + VarintsFrom(s, next)
  {
    ItemsHead(items);
    var w := WireInt(items[0].i);
    Split(s, pos, Varint(w), EncodeItems(items[1..]).value);
    VarintRoundTrip(s, pos, w);
    next := pos + |Varint(w)|;
    VarintsCons(s, pos, Some(w), next);
  }

  /** Reading varints from `pos` on is the varint at `pos`, then the ones after it. */
  lemma VarintsCons(s: seq<byte>, pos: nat, value: Option<nat>, next: nat)
    requires pos < |s| && VarintAt(s, pos) == Step(value, next)
    ensures next <= |s| && VarintsFrom(s, pos) == [value] + VarintsFrom(s, next)
  {
  }

  /** A packed list of integers starts with its first element's varint,
      untagged, and goes on with the packing of the others. */
  lemma ItemsHead(items: seq<Value>)
    requires items != [] && forall item :: item in items ==> item.Int?
    ensures forall item :: item in items[1..] ==> item.Int?
    ensures EncodeItems(items).value == Varint(WireInt(items[0].i)) + EncodeItems(items[1..]).value
  {
    assert items[0] in items;
    assert forall item :: item in items[1..] ==> item in items;
    assert EncodeRecord(items[0], None).value == Varint(WireInt(items[0].i));
  }

  /** A message of integers and nested messages with distinct field numbers
      at every level: the values the decoder gives back as they were. */
  predicate Plain(v: Value)
  {
    match v
    case Int(_) => true
    case Dict(entries) => DistinctFields(entries) && forall e :: e in entries ==> Plain(e.1)
    case _ => false
  }

  lemma {:induction false} PlainIsEncodable(v: Value)
    requires Plain(v)
    ensures Encodable(v)
  {
    if v.Dict? {
      forall e | e in v.entries ensures Encodable(e.1) {
        assert e.1 < v;
        PlainIsEncodable(e.1);
      }
    }
  }

  /** What `decode` returns for a plain value: its wire integer, or the
      decoded message with every field as a bare value. */
  function Expected(v: Value): (r: DecodedValue)
    requires Plain(v)
    ensures v.Int? <==> r.Number?
    decreases v, 1
  {
    match v
    case Dict(entries) => Message(ExpectedEntries(entries))
    case Int(i) => Number(WireInt(i))
  }

  function ExpectedEntries(entries: seq<(nat, Value)>): (r: seq<(nat, Field)>)
    requires forall e :: e in entries ==> Plain(e.1)
    ensures |r| == |entries|
    decreases entries, 0
  {
    if entries == [] then []
    else
      assert entries[0] in entries && entries[0].1 < entries[0];
      assert forall e :: e in entries[1..] ==> e in entries;
      [(entries[0].0, Single(Expected(entries[0].1)))] + ExpectedEntries(entries[1..])
  }

  lemma {:induction false} ExpectedAt(entries: seq<(nat, Value)>, i: nat)
    requires forall e :: e in entries ==> Plain(e.1)
    requires i < |entries|
    ensures entries[i] in entries
    ensures ExpectedEntries(entries)[i] == (entries[i].0, Single(Expected(entries[i].1)))
  {
    if i > 0 {
      assert forall e :: e in entries[1..] ==> e in entries;
      ExpectedAt(entries[1..], i - 1);
    }
  }

  /** A record with a new field number opens a list of its own at the end. */
  lemma {:induction false} AppendNew(groups: Groups, record: Record)
    requires record.field !in FieldNumbers(groups)
    ensures Append(groups, record) == groups + [(record.field, [record.value])]
  {
    if groups != [] {
      assert FieldNumbers(groups)[0] == groups[0].0;
      assert record.field !in FieldNumbers(groups[1..]) by {
        forall i | 0 <= i < |groups[1..]| ensures FieldNumbers(groups[1..])[i] != record.field {
          assert FieldNumbers(groups[1..])[i] == groups[i + 1].0 == FieldNumbers(groups)[i + 1];
        }
      }
      AppendNew(groups[1..], record);
    }
  }

  /** Records with distinct field numbers are grouped one per list, in order. */
  lemma {:induction false} GroupDistinct(records: seq<Record>)
    requires forall i, j :: 0 <= i < j < |records| ==> records[i].field != records[j].field
    ensures |Group(records)| == |records|
    ensures forall i :: 0 <= i < |records| ==> Group(records)[i] == (records[i].field, [records[i].value])
  {
    if records != [] {
      var init, last := GroupLast(records);
      GroupDistinct(init);
      DistinctStep(records, init, last, Group(init));
    }
  }

  /** The induction step of `GroupDistinct`: a record whose field number is
      new is appended to the grouping as a list of its own. */
  lemma DistinctStep(records: seq<Record>, init: seq<Record>, last: Record, groups: Groups)
    requires records != [] && init == records[..|records| - 1] && last == records[|records| - 1]
    requires forall i, j :: 0 <= i < j < |records| ==> records[i].field != records[j].field
    requires |groups| == |init|
    requires forall i :: 0 <= i < |init| ==> groups[i] == (init[i].field, [init[i].value])
    ensures |Append(groups, last)| == |records|
    ensures forall i :: 0 <= i < |records| ==> Append(groups, last)[i] == (records[i].field, [records[i].value])
  {
    assert last.field !in FieldNumbers(groups) by {
      forall i | 0 <= i < |init| ensures FieldNumbers(groups)[i] != last.field {
        assert init[i] == records[i];
      }
    }
    AppendNew(groups, last);
    var all := groups + [(last.field, [last.value])];
    forall i | 0 <= i < |records|
      ensures all[i] == (records[i].field, [records[i].value])
    {
      if i < |init| {
        assert all[i] == groups[i];
        assert init[i] == records[i];
      }
    }
  }

  /** The decoder gives back every plain message the encoder writes: each
      field as a bare value, integers as their wire integers, nested messages
      decoded in turn. */
  lemma {:induction false} DecodeEncode(v: Value)
    requires v.Dict? && Plain(v)
    requires Encode(v).Ok? ==> |Encode(v).value| < SsizeLimit
    ensures Encode(v).Ok?
    ensures Decoded(Encode(v).value) == Ok(Expected(v).fields)
    decreases v
  {
    PlainIsEncodable(v);
    var entries := v.entries;
    var s := EncodeEntries(entries).value;
    assert Encode(v).value == s;
    var n := |s|;
    assert s[0..] == s;
    ReadBackEntries(s, 0, entries);
    var records := RecordsOf(entries);
    RecordsOfEach(entries);
    GroupDistinct(records);
    GroupShorter(records, n);
    var groups := Group(records);
    var fields := Finish(groups, n);
    assert Decoded(s) == Ok(fields);
    var expected := ExpectedEntries(entries);
    forall i | 0 <= i < |entries|
      ensures fields[i] == expected[i]
    {
      ExpectedAt(entries, i);
      var (field, w) := entries[i];
      assert entries[i] in entries;
      assert Plain(w);
      var payload := WireValue(w);
      assert groups[i] == (field, [payload]);
      assert fields[i] == (field, Collapse(InferAll([payload], n)));
      assert InferAll([payload], n) == [Infer(payload, n)];
      if w.Dict? {
        assert w < v;
        assert Encode(w).value == payload.bytes;
        assert PayloadsShorter(groups[i].1, n);
        DecodeEncode(w);
      }
      assert Infer(payload, n) == Expected(w);
    }
    assert fields == expected;
  }

  /** The nested example: `{1: {2: 7}}` decodes back to itself. */
  lemma NestedRoundTrip()
    ensures Encode(Dict([(1, Dict([(2, Int(7))]))])).Ok?
    ensures Decoded(Encode(Dict([(1, Dict([(2, Int(7))]))])).value) ==
      Ok([(1, Single(Message([(2, Single(Number(7)))])))])
  {
    var inner := Dict([(2, Int(7))]);
    var outer := Dict([(1, inner)]);
    assert forall e :: e in inner.entries ==> e == (2, Int(7));
    assert Plain(inner);
    assert forall e :: e in outer.entries ==> e == (1, inner);
    assert Plain(outer);
    EncodeNestedExample();
    DecodeEncode(outer);
    ExpectedAt(inner.entries, 0);
    assert WireInt(7) == 7;
    assert ExpectedEntries(inner.entries) == [(2, Single(Number(7)))];
    ExpectedAt(outer.entries, 0);
    assert ExpectedEntries(outer.entries) == [(1, Single(Message([(2, Single(Number(7)))])))];
  }
}

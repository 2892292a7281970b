/** The decoder: records are read until the stream ends, their payloads are
    grouped per field number in stream order, every byte payload is tried as
    a nested message, and a field that occurred once is given as a bare value. */
module Decoder {
  import opened Wire
  import opened Stream
  import opened VarintCodec
  import opened Tags
  import opened Records

  /** The payloads collected so far, per field number, in first-seen order of
      the field numbers (an insertion-ordered `defaultdict(list)`). */
  type Groups = seq<(nat, seq<DecodedValue>)>

  /** Every record's payload is raw bytes shorter than `n`, or no bytes. */
  predicate RecordsShorter(records: seq<Record>, n: nat)
  {
    forall i :: 0 <= i < |records| ==> ShorterThan(records[i].value, n)
  }

  /** Every payload is raw bytes shorter than `n`, or no bytes. */
  predicate PayloadsShorter(values: seq<DecodedValue>, n: nat)
  {
    forall j :: 0 <= j < |values| ==> ShorterThan(values[j], n)
  }

  /** The records `decode` reads from position `pos` until no tag can be read,
      or the first error a record raises. */
  function RecordsFrom(s: seq<byte>, pos: nat): (r: Result<seq<Record>, DecodeError>)
    requires pos <= |s|
    ensures r.Ok? ==> RecordsShorter(r.value, |s| - pos)
    ensures r.Ok? ==> forall i :: 0 <= i < |r.value| ==> IsPayload(r.value[i].value)
    decreases |s| - pos
  {
    var step := RecordAt(s, pos);
    match step.value
    case Err(e) => Err(e)
    case Ok(None) => Ok([])
    case Ok(Some(record)) =>
      match RecordsFrom(s, step.next)
      case Err(e) => Err(e)
      case Ok(rest) => Ok([record] + rest)
  }

  /** The field numbers of a mapping kept as a sequence of pairs, in order. */
  function FieldNumbers<T>(entries: seq<(nat, T)>): (r: seq<nat>)
    ensures |r| == |entries|
    ensures forall i :: 0 <= i < |entries| ==> r[i] == entries[i].0
  {
    if entries == [] then [] else [entries[0].0] + FieldNumbers(entries[1..])
  }

  /** No field number occurs twice. */
  predicate DistinctFields<T>(entries: seq<(nat, T)>)
  {
    forall i, j :: 0 <= i < j < |entries| ==> entries[i].0 != entries[j].0
  }

  /** `result[key]` of the `defaultdict(list)`: the payloads collected for a
      field number, none if it has not occurred. */
  function Lookup(groups: Groups, field: nat): (values: seq<DecodedValue>)
  {
    if groups == [] then []
    else if groups[0].0 == field then groups[0].1
    else Lookup(groups[1..], field)
  }

  /** The payloads of the records with a given field number, in stream order. */
  function PayloadsOf(records: seq<Record>, field: nat): (r: seq<DecodedValue>)
    ensures |r| <= |records|
    ensures forall n :: RecordsShorter(records, n) ==> PayloadsShorter(r, n)
  {
    if records == [] then []
    else
      var init, last := records[..|records| - 1], records[|records| - 1];
      assert forall n :: RecordsShorter(records, n) ==> RecordsShorter(init, n) && ShorterThan(last.value, n) by {
        forall n | RecordsShorter(records, n) ensures RecordsShorter(init, n) {
          forall i | 0 <= i < |init| ensures ShorterThan(init[i].value, n) {
            assert init[i] == records[i];
          }
        }
      }
      PayloadsOf(init, field) + (if last.field == field then [last.value] else [])
  }

  /** `result[key].append(value)`: the record's payload goes at the end of its
      field's list, which is created, after all the others, on first use. */
  function Append(groups: Groups, record: Record): (r: Groups)
    ensures FieldNumbers(r) == if record.field in FieldNumbers(groups) then FieldNumbers(groups) else FieldNumbers(groups) + [record.field]
  {
    if groups == [] then [(record.field, [record.value])]
    else if groups[0].0 == record.field then [(record.field, groups[0].1 + [record.value])] + groups[1..]
    else
      var rest := Append(groups[1..], record);
      assert FieldNumbers([groups[0]] + rest) == [groups[0].0] + FieldNumbers(rest);
      assert FieldNumbers(groups) == [groups[0].0] + FieldNumbers(groups[1..]);
      [groups[0]] + rest
  }

  /** Appending adds the payload at the end of its own field's list and
      leaves every other field's list as it was. */
  lemma {:induction false} AppendLookup(groups: Groups, record: Record, k: nat)
    ensures Lookup(Append(groups, record), k) ==
      if k == record.field then Lookup(groups, k) + [record.value] else Lookup(groups, k)
  {
    if groups != [] && groups[0].0 != record.field {
      AppendLookup(groups[1..], record, k);
      assert ([groups[0]] + Append(groups[1..], record))[1..] == Append(groups[1..], record);
    }
  }

  /** The grouping the decode loop builds from the records it reads. */
  function Group(records: seq<Record>): (groups: Groups)
    ensures |groups| <= |records|
    ensures groups == [] <==> records == []
  {
    if records == [] then [] else Append(Group(records[..|records| - 1]), records[|records| - 1])
  }

  /** The loop collects, for every field number, the payloads of exactly the
      records with that number, in stream order, and creates one list per
      field number. */
  lemma GroupCollects(records: seq<Record>)
    ensures forall k :: Lookup(Group(records), k) == PayloadsOf(records, k)
    ensures DistinctFields(Group(records))
    ensures forall k :: k in FieldNumbers(Group(records)) <==> exists i :: 0 <= i < |records| && records[i].field == k
  {
    GroupLookup(records);
    GroupKeys(records);
  }

  lemma {:induction false} GroupLookup(records: seq<Record>)
    ensures forall k :: Lookup(Group(records), k) == PayloadsOf(records, k)
  {
    if records != [] {
      var init, last := records[..|records| - 1], records[|records| - 1];
      GroupLookup(init);
      forall k ensures Lookup(Group(records), k) == PayloadsOf(records, k) {
        AppendLookup(Group(init), last, k);
      }
    }
  }

  lemma GroupKeys(records: seq<Record>)
    ensures DistinctFields(Group(records))
    ensures forall k :: k in FieldNumbers(Group(records)) <==> exists i :: 0 <= i < |records| && records[i].field == k
  {
    GroupDistinctFields(records);
    forall k ensures k in FieldNumbers(Group(records)) <==> exists i :: 0 <= i < |records| && records[i].field == k {
      GroupHasKey(records, k);
    }
  }

  lemma {:induction false} GroupDistinctFields(records: seq<Record>)
    ensures DistinctFields(Group(records))
  {
    if records != [] {
      GroupDistinctFields(records[..|records| - 1]);
      AppendKeepsDistinct(Group(records[..|records| - 1]), records[|records| - 1]);
    }
  }

  lemma {:induction false} GroupHasKey(records: seq<Record>, k: nat)
    ensures k in FieldNumbers(Group(records)) <==> HasField(records, k)
  {
    if records != [] {
      var init, last := GroupLast(records);
      GroupHasKey(init, k);
      HasKeyStep(records, init, last, FieldNumbers(Group(init)), FieldNumbers(Group(records)), k);
    }
  }

  /** A non-empty record list's grouping is that of all records but the
      last, with the last appended; so its keys are theirs, with the last
      record's field number added at the end if it is new. */
  lemma GroupLast(records: seq<Record>) returns (init: seq<Record>, last: Record)
    requires records != []
    ensures init == records[..|records| - 1] && last == records[|records| - 1]
    ensures Group(records) == Append(Group(init), last)
    ensures FieldNumbers(Group(records)) == if last.field in FieldNumbers(Group(init)) then FieldNumbers(Group(init)) else FieldNumbers(Group(init)) + [last.field]
  {
    init, last := records[..|records| - 1], records[|records| - 1];
    assert Group(records) == Append(Group(init), last);
  }

  /** Some record carries field number `k`. */
  predicate HasField(records: seq<Record>, k: nat)
  {
    exists i :: 0 <= i < |records| && records[i].field == k
  }

  /** The induction step of `GroupHasKey`: the keys `before` of the grouping
      of `init` become `after` once `last` is appended. */
  lemma HasKeyStep(records: seq<Record>, init: seq<Record>, last: Record, before: seq<nat>, after: seq<nat>, k: nat)
    requires records != [] && init == records[..|records| - 1] && last == records[|records| - 1]
    requires after == if last.field in before then before else before + [last.field]
    requires k in before <==> HasField(init, k)
    ensures k in after <==> HasField(records, k)
  {
    HasFieldSplit(records, init, last, k);
  }

  /** A field number occurs in a non-empty record list exactly when it
      occurs in all records but the last (`init`) or in the last. */
  lemma HasFieldSplit(records: seq<Record>, init: seq<Record>, last: Record, k: nat)
    requires records != [] && init == records[..|records| - 1] && last == records[|records| - 1]
    ensures HasField(records, k) <==> HasField(init, k) || last.field == k
  {
    if HasField(records, k) {
      var i :| 0 <= i < |records| && records[i].field == k;
      if i < |init| {
        assert init[i].field == k;
      }
    }
    if HasField(init, k) {
      var i :| 0 <= i < |init| && init[i].field == k;
      assert records[i].field == k;
    }
    if last.field == k {
      assert records[|init|].field == k;
    }
  }

  lemma AppendKeepsDistinct(groups: Groups, record: Record)
    requires DistinctFields(groups)
    ensures DistinctFields(Append(groups, record))
  {
    var r := Append(groups, record);
    var keys, keys' := FieldNumbers(groups), FieldNumbers(r);
    if record.field in keys {
      assert keys' == keys;
      forall i, j | 0 <= i < j < |r| ensures r[i].0 != r[j].0 {
        assert r[i].0 == keys'[i] == groups[i].0;
        assert r[j].0 == keys'[j] == groups[j].0;
      }
    } else {
      assert keys' == keys + [record.field];
      forall i, j | 0 <= i < j < |r| ensures r[i].0 != r[j].0 {
        assert r[i].0 == keys'[i] == groups[i].0;
        if j < |groups| {
          assert r[j].0 == keys'[j] == groups[j].0;
        } else {
          assert r[j].0 == keys'[j] == record.field;
          assert keys[i] == groups[i].0;
        }
      }
    }
  }

  /** Every payload in the groups is raw bytes shorter than `n`, or no bytes. */
  predicate AllShorter(groups: Groups, n: nat)
  {
    forall i :: 0 <= i < |groups| ==> PayloadsShorter(groups[i].1, n)
  }

  lemma {:induction false} GroupShorter(records: seq<Record>, n: nat)
    requires RecordsShorter(records, n)
    ensures AllShorter(Group(records), n)
  {
    if records != [] {
      var init, last := records[..|records| - 1], records[|records| - 1];
      assert RecordsShorter(init, n) by {
        forall i | 0 <= i < |init| ensures ShorterThan(init[i].value, n) {
          assert init[i] == records[i];
        }
      }
      GroupShorter(init, n);
      AppendShorter(Group(init), last, n);
    }
  }

  lemma {:induction false} AppendShorter(groups: Groups, record: Record, n: nat)
    requires AllShorter(groups, n) && ShorterThan(record.value, n)
    ensures AllShorter(Append(groups, record), n)
  {
    if groups != [] && groups[0].0 != record.field {
      assert AllShorter(groups[1..], n) by {
        forall i | 0 <= i < |groups[1..]| ensures PayloadsShorter(groups[1..][i].1, n) {
          assert groups[1..][i] == groups[i + 1];
        }
      }
      AppendShorter(groups[1..], record, n);
      var r := Append(groups, record);
      assert r == [groups[0]] + Append(groups[1..], record);
    }
  }

  /** The speculative sub-decode of one payload: bytes that decode become the
      decoded message, bytes that fail to decode stay as they are, and other
      payloads are never touched. */
  function Infer(v: DecodedValue, ghost n: nat): (r: DecodedValue)
    requires ShorterThan(v, n)
    ensures !v.Raw? ==> r == v
    ensures v.Raw? ==> (r.Message? <==> Decoded(v.bytes).Ok?)
    ensures !r.Message? ==> r == v
    ensures v.Raw? && r.Message? ==> r.fields == Decoded(v.bytes).value
    decreases n, 0
  {
    if v.Raw? then
      match Decoded(v.bytes)
      case Ok(m) => Message(m)
      case Err(_) => v
    else v
  }

  /** The inference applied to every payload of one field, in place. */
  function InferAll(values: seq<DecodedValue>, ghost n: nat): (r: seq<DecodedValue>)
    requires PayloadsShorter(values, n)
    ensures |r| == |values|
    ensures forall j :: 0 <= j < |values| ==> r[j] == Infer(values[j], n)
    decreases n, 1, |values|
  {
    if values == [] then []
    else
      var init := values[..|values| - 1];
      assert PayloadsShorter(init, n) by {
        forall j | 0 <= j < |init| ensures ShorterThan(init[j], n) {
          assert init[j] == values[j];
        }
      }
      InferAll(init, n) + [Infer(values[|values| - 1], n)]
  }

  /** A field that occurred exactly once is given as its bare value. */
  function Collapse(values: seq<DecodedValue>): (r: Field)
    ensures r.Single? <==> |values| == 1
    ensures r.Single? ==> r.value == values[0]
    ensures r.Repeated? ==> r.values == values
  {
    if |values| == 1 then Single(values[0]) else Repeated(values)
  }

  /** The post-processing pass over the collected fields, in their order. */
  function Finish(groups: Groups, ghost n: nat): (r: seq<(nat, Field)>)
    requires AllShorter(groups, n)
    ensures |r| == |groups|
    ensures forall i :: 0 <= i < |groups| ==>
      r[i].0 == groups[i].0 && r[i].1 == Collapse(InferAll(groups[i].1, n))
    decreases n, 2, |groups|
  {
    if groups == [] then []
    else
      var init := groups[..|groups| - 1];
      assert AllShorter(init, n) by {
        forall i | 0 <= i < |init| ensures PayloadsShorter(init[i].1, n) {
          assert init[i] == groups[i];
        }
      }
      var (field, values) := groups[|groups| - 1];
      Finish(init, n) + [(field, Collapse(InferAll(values, n)))]
  }

  /** `decode(data)`: the error of the first record that raises one, or the
      collected fields after inference and collapse. */
  function Decoded(s: seq<byte>): (r: Result<seq<(nat, Field)>, DecodeError>)
    ensures r.Err? <==> RecordsFrom(s, 0).Err?
    decreases |s|, 3
  {
    match RecordsFrom(s, 0)
    case Err(e) => Err(e)
    case Ok(records) =>
      GroupShorter(records, |s|);
      Ok(Finish(Group(records), |s|))
  }

  /** The shape of a successful decode: one entry per field number that
      occurs in the stream, none twice; each holds that field's payloads in
      stream order after inference, as a bare value when there is exactly one. */
  lemma DecodeShape(s: seq<byte>)
    requires RecordsFrom(s, 0).Ok?
    ensures Decoded(s).Ok?
    ensures var records, fields := RecordsFrom(s, 0).value, Decoded(s).value;
      DistinctFields(fields) &&
      (forall k :: k in FieldNumbers(fields) <==> exists i :: 0 <= i < |records| && records[i].field == k) &&
      (forall i :: 0 <= i < |fields| ==>
        |PayloadsOf(records, fields[i].0)| >= 1 &&
        fields[i].1 == Collapse(InferAll(PayloadsOf(records, fields[i].0), |s|)))
  {
    var records := RecordsFrom(s, 0).value;
    GroupShorter(records, |s|);
    assert Decoded(s) == Ok(Finish(Group(records), |s|));
    FinishKeys(records, |s|);
    FinishPayloads(records, |s|);
  }

  /** The finished fields have the grouping's field numbers: distinct, and
      exactly those of the records. */
  lemma FinishKeys(records: seq<Record>, n: nat)
    requires RecordsShorter(records, n) && AllShorter(Group(records), n)
    ensures var fields := Finish(Group(records), n);
      DistinctFields(fields) &&
      forall k :: k in FieldNumbers(fields) <==> exists i :: 0 <= i < |records| && records[i].field == k
  {
    var groups := Group(records);
    var fields := Finish(groups, n);
    GroupKeys(records);
    assert FieldNumbers(fields) == FieldNumbers(groups);
    assert DistinctFields(fields) by {
      forall i, j | 0 <= i < j < |fields| ensures fields[i].0 != fields[j].0 {
        assert fields[i].0 == groups[i].0 && fields[j].0 == groups[j].0;
      }
    }
  }

  /** Each finished field holds its records' payloads after inference and collapse. */
  lemma FinishPayloads(records: seq<Record>, n: nat)
    requires RecordsShorter(records, n) && AllShorter(Group(records), n)
    ensures var fields := Finish(Group(records), n);
      forall i :: 0 <= i < |fields| ==>
        |PayloadsOf(records, fields[i].0)| >= 1 &&
        fields[i].1 == Collapse(InferAll(PayloadsOf(records, fields[i].0), n))
  {
    var groups := Group(records);
    var fields := Finish(groups, n);
    forall i | 0 <= i < |fields|
      ensures |PayloadsOf(records, fields[i].0)| >= 1
      ensures fields[i].1 == Collapse(InferAll(PayloadsOf(records, fields[i].0), n))
    {
      assert fields[i].0 == groups[i].0 && fields[i].1 == Collapse(InferAll(groups[i].1, n));
      GroupAt(records, i);
    }
  }

  /** Each list of the grouping holds at least one payload, those of its own field number. */
  lemma GroupAt(records: seq<Record>, i: nat)
    requires i < |Group(records)|
    ensures Group(records)[i].1 == PayloadsOf(records, Group(records)[i].0)
    ensures |PayloadsOf(records, Group(records)[i].0)| >= 1
  {
    var groups := Group(records);
    GroupLookup(records);
    GroupKeys(records);
    LookupDistinct(groups, i);
    assert FieldNumbers(groups)[i] == groups[i].0;
    assert groups[i].0 in FieldNumbers(groups);
    var w :| 0 <= w < |records| && records[w].field == groups[i].0;
    PayloadsOfNonEmpty(records, w);
  }

  /** With distinct field numbers, looking a field number up finds its own entry. */
  lemma {:induction false} LookupDistinct(groups: Groups, i: nat)
    requires DistinctFields(groups) && i < |groups|
    ensures Lookup(groups, groups[i].0) == groups[i].1
  {
    if i > 0 {
      assert DistinctFields(groups[1..]) by {
        forall a, b | 0 <= a < b < |groups[1..]| ensures groups[1..][a].0 != groups[1..][b].0 {
          assert groups[1..][a] == groups[a + 1] && groups[1..][b] == groups[b + 1];
        }
      }
      LookupDistinct(groups[1..], i - 1);
    }
  }

  lemma {:induction false} PayloadsOfNonEmpty(records: seq<Record>, w: nat)
    requires w < |records|
    ensures |PayloadsOf(records, records[w].field)| >= 1
  {
    if w < |records| - 1 {
      PayloadsOfNonEmpty(records[..|records| - 1], w);
    }
  }

  /** Empty input decodes to an empty message. */
  lemma DecodeEmpty()
    ensures Decoded([]) == Ok([])
  {
    assert VarintAt([], 0).value.None?;
    assert RecordsFrom([], 0) == Ok([]);
  }

  /** `decode(data)`: reads records until the stream ends and appends each
      payload to its field's list; then tries every byte payload as a nested
      message, keeping the bytes when that fails, and replaces a list of one
      payload by the payload itself. */
  method Decode(data: seq<byte>) returns (r: Result<seq<(nat, Field)>, DecodeError>)
    ensures r == Decoded(data)
    decreases |data|, 1
  {
    var collected := Collect(data);
    if collected.Err? {
      return Err(collected.error);
    }
    var result := collected.value;
    ghost var n := |data|;
    GroupShorter(RecordsFrom(data, 0).value, n);
    var fields: seq<(nat, Field)> := [];
    var i := 0;
    while i < |result|
      invariant 0 <= i <= |result|
      invariant fields == Finish(result[..i], n)
    {
      var (key, values) := result[i];
      values := InferPayloads(values, n);
      FinishStep(result, i, n);
      fields := fields + [(key, Collapse(values))];
      i := i + 1;
    }
    assert result[..i] == result;
    return Ok(fields);
  }

  /** The reading loop of `decode`: records are read until none is left and
      each payload is appended to its field's list; a record that raises ends
      the decode with that error. */
  method Collect(data: seq<byte>) returns (r: Result<Groups, DecodeError>)
    ensures r.Err? <==> RecordsFrom(data, 0).Err?
    ensures r.Err? ==> r.error == RecordsFrom(data, 0).error
    ensures r.Ok? ==> r.value == Group(RecordsFrom(data, 0).value)
  {
    var reader := new Reader(data);
    var result: Groups := [];
    ghost var seen: seq<Record> := [];
    AfterNothing(RecordsFrom(data, 0));
    while true
      invariant reader.Valid() && reader.data == data
      invariant result == Group(seen)
      invariant RecordsFrom(data, 0) == After(seen, RecordsFrom(data, reader.pos))
      decreases |data| - reader.pos
    {
      ghost var before := reader.pos;
      var record := ReadRecord(reader);
      RecordsFromStep(data, before);
      if record.Err? {
        return Err(record.error);
      }
      if record.value.None? {
        break;
      }
      AfterOne(seen, record.value.value, RecordsFrom(data, reader.pos));
      assert (seen + [record.value.value])[..|seen|] == seen;
      result := Append(result, record.value.value);
      seen := seen + [record.value.value];
    }
    assert seen + [] == seen;
    return Ok(result);
  }

  /** The inference pass over one field's list: every byte payload is decoded
      as a nested message and replaced by it when that succeeds. */
  method InferPayloads(payloads: seq<DecodedValue>, ghost n: nat) returns (values: seq<DecodedValue>)
    requires PayloadsShorter(payloads, n)
    ensures values == InferAll(payloads, n)
    decreases n, 0
  {
    values := payloads;
    var index := 0;
    while index < |values|
      invariant 0 <= index <= |values| == |payloads|
      invariant forall j :: 0 <= j < index ==> values[j] == Infer(payloads[j], n)
      invariant forall j :: index <= j < |values| ==> values[j] == payloads[j]
    {
      var value := values[index];
      ghost var before := values;
      if value.Raw? {
        // a payload that fails to decode is left as it is
        var sub := Decode(value.bytes);
        InferRaw(value.bytes, n);
        if sub.Ok? {
          values := values[index := Message(sub.value)];
        }
      }
      InferStep(payloads, before, values, index, n);
      index := index + 1;
    }
  }

  /** One pass of the loop: the payload at `index` is now inferred and no
      other element changed, so the inferred prefix grows by one. */
  lemma InferStep(payloads: seq<DecodedValue>, before: seq<DecodedValue>, after: seq<DecodedValue>, index: nat, n: nat)
    requires PayloadsShorter(payloads, n)
    requires |before| == |payloads| == |after| && index < |before|
    requires forall j :: 0 <= j < index ==> before[j] == Infer(payloads[j], n)
    requires forall j :: index <= j < |before| ==> before[j] == payloads[j]
    requires after[index] == Infer(payloads[index], n)
    requires forall j :: 0 <= j < |after| && j != index ==> after[j] == before[j]
    ensures forall j :: 0 <= j < index + 1 ==> after[j] == Infer(payloads[j], n)
    ensures forall j :: index + 1 <= j < |after| ==> after[j] == payloads[j]
  {
  }

  /** Inference on bytes: the decoded message when they decode, the bytes otherwise. */
  lemma InferRaw(bytes: seq<byte>, n: nat)
    requires |bytes| < n
    ensures Infer(Raw(bytes), n) == if Decoded(bytes).Ok? then Message(Decoded(bytes).value) else Raw(bytes)
  {
  }

  lemma FinishStep(groups: Groups, i: nat, n: nat)
    requires AllShorter(groups, n) && i < |groups|
    ensures AllShorter(groups[..i], n) && AllShorter(groups[..i + 1], n)
    ensures Finish(groups[..i + 1], n) == Finish(groups[..i], n) + [(groups[i].0, Collapse(InferAll(groups[i].1, n)))]
  {
    assert groups[..i + 1][..i] == groups[..i];
  }

  lemma RecordsFromStep(s: seq<byte>, pos: nat)
    requires pos <= |s|
    ensures RecordAt(s, pos).value == Ok(None) ==> RecordsFrom(s, pos) == Ok([])
    ensures RecordAt(s, pos).value.Err? ==> RecordsFrom(s, pos) == Err(RecordAt(s, pos).value.error)
    ensures RecordAt(s, pos).value.Ok? && RecordAt(s, pos).value.value.Some? ==>
      RecordsFrom(s, pos) == After([RecordAt(s, pos).value.value.value], RecordsFrom(s, RecordAt(s, pos).next))
  {
  }

  lemma AfterNothing(records: Result<seq<Record>, DecodeError>)
    ensures After([], records) == records
  {
    if records.Ok? {
      assert [] + records.value == records.value;
    }
  }

  /** The records of a whole stream, given those already read and the outcome
      of reading the rest. */
  function After(seen: seq<Record>, rest: Result<seq<Record>, DecodeError>): (r: Result<seq<Record>, DecodeError>)
  {
    match rest
    case Err(e) => Err(e)
    case Ok(records) => Ok(seen + records)
  }

  lemma AfterOne(seen: seq<Record>, record: Record, rest: Result<seq<Record>, DecodeError>)
    ensures After(seen, After([record], rest)) == After(seen + [record], rest)
  {
    if rest.Ok? {
      assert seen + ([record] + rest.value) == (seen + [record]) + rest.value;
    }
  }

  /** A record followed by the records after it. */
  lemma RecordsCons(s: seq<byte>, pos: nat, record: Record, next: nat, rest: seq<Record>)
    requires pos <= |s| && RecordAt(s, pos) == Step(Ok(Some(record)), next)
    requires RecordsFrom(s, next) == Ok(rest)
    ensures RecordsFrom(s, pos) == Ok([record] + rest)
  {
  }

  /** Nothing is read at the end of the stream. */
  lemma RecordsEnd(s: seq<byte>)
    ensures RecordsFrom(s, |s|) == Ok([])
  {
    assert TagAt(s, |s|).value == Ok(None);
  }

  /** A stream of one record decodes to that record's field with its inferred payload. */
  lemma DecodedOne(s: seq<byte>, field: nat, v: DecodedValue)
    requires RecordsFrom(s, 0) == Ok([Record(field, v)])
    ensures ShorterThan(v, |s|)
    ensures Decoded(s) == Ok([(field, Single(Infer(v, |s|)))])
  {
    var records := [Record(field, v)];
    assert records[..0] == [];
    assert Group(records) == [(field, [v])];
    DecodedField(s, records, field, [v]);
    assert [v][0] == v;
    assert InferAll([v], |s|) == [Infer(v, |s|)];
  }

  /** A stream of two records with the same field number decodes to that
      field with the list of both inferred payloads. */
  lemma DecodedTwo(s: seq<byte>, field: nat, v: DecodedValue, w: DecodedValue)
    requires RecordsFrom(s, 0) == Ok([Record(field, v), Record(field, w)])
    ensures ShorterThan(v, |s|) && ShorterThan(w, |s|)
    ensures Decoded(s) == Ok([(field, Repeated([Infer(v, |s|), Infer(w, |s|)]))])
  {
    GroupTwo(field, v, w);
    DecodedField(s, [Record(field, v), Record(field, w)], field, [v, w]);
    assert [v, w][0] == v && [v, w][1] == w;
    assert InferAll([v, w], |s|) == [Infer(v, |s|), Infer(w, |s|)];
  }

  /** A stream whose records all carry one field number decodes to that
      field alone, holding its inferred payloads. */
  lemma DecodedField(s: seq<byte>, records: seq<Record>, field: nat, values: seq<DecodedValue>)
    requires RecordsFrom(s, 0) == Ok(records) && Group(records) == [(field, values)]
    ensures PayloadsShorter(values, |s|)
    ensures Decoded(s) == Ok([(field, Collapse(InferAll(values, |s|)))])
  {
    GroupShorter(records, |s|);
    assert AllShorter([(field, values)], |s|);
    assert PayloadsShorter([(field, values)][0].1, |s|);
    var r := Finish([(field, values)], |s|);
    assert r == [(field, Collapse(InferAll(values, |s|)))];
  }

  /** Two records with the same field number are grouped into one list. */
  lemma GroupTwo(field: nat, v: DecodedValue, w: DecodedValue)
    ensures Group([Record(field, v), Record(field, w)]) == [(field, [v, w])]
  {
    var records := [Record(field, v), Record(field, w)];
    assert records[..1] == [Record(field, v)] && records[..1][..0] == [];
    assert Group(records[..1]) == [(field, [v])];
    assert [v] + [w] == [v, w];
  }

  /** A field that occurs twice is collected into a list, in stream order. */
  lemma DecodeRepeatedExample()
    ensures Decoded([0x18, 0x05, 0x18, 0x09]) == Ok([(3, Repeated([Number(5), Number(9)]))])
  {
    var s: seq<byte> := [0x18, 0x05, 0x18, 0x09];
    var first, second := Record(3, Number(5)), Record(3, Number(9));
    assert VarintAt(s, 0) == Step(Some(0x18), 1);
    TagOf(s, 0, 0x18, 1);
    assert VarintAt(s, 1) == Step(Some(5), 2);
    VarintPayload(s, 0, 3, 1, Some(5), 2);
    assert VarintAt(s, 2) == Step(Some(0x18), 3);
    TagOf(s, 2, 0x18, 3);
    assert VarintAt(s, 3) == Step(Some(9), 4);
    VarintPayload(s, 2, 3, 3, Some(9), 4);
    RecordsEnd(s);
    RecordsCons(s, 2, second, 4, []);
    assert [second] + [] == [second];
    RecordsCons(s, 0, first, 2, [second]);
    assert [first] + [second] == [first, second];
    DecodedTwo(s, 3, Number(5), Number(9));
  }

  /** A group wire type passes the tag reader and fails in the record reader. */
  lemma DecodeGroupErrorExample()
    ensures Decoded([0x0B]) == Err(UnknownWireType(SGROUP))
  {
    assert VarintAt([0x0B], 0) == Step(Some(0x0B), 1);
    TagOf([0x0B], 0, 0x0B, 1);
    assert RecordAt([0x0B], 0).value == Err(UnknownWireType(SGROUP));
    RecordsFromStep([0x0B], 0);
  }

  /** A wire code that names no wire type fails in the tag reader. */
  lemma DecodeInvalidCodeExample()
    ensures Decoded([0x0E]) == Err(InvalidWireType(6))
  {
    assert VarintAt([0x0E], 0) == Step(Some(0x0E), 1);
    assert RecordAt([0x0E], 0).value == Err(InvalidWireType(6));
    RecordsFromStep([0x0E], 0);
  }

  /** A LEN record declaring 2^63 bytes: `read` rejects the length, so the
      whole decode fails, however few bytes follow. */
  lemma DecodeOverflowExample()
    ensures Decoded([0x0A, 0x80, 0x80, 0x80, 0x80, 0x80, 0x80, 0x80, 0x80, 0x80, 0x01]) ==
      Err(LengthOverflow(SsizeLimit))
  {
    var s: seq<byte> := [0x0A, 0x80, 0x80, 0x80, 0x80, 0x80, 0x80, 0x80, 0x80, 0x80, 0x01];
    OverflowRecord(s, 0);
    RecordsFromStep(s, 0);
  }

  /** Inside a nested payload the same record makes only the sub-decode
      fail, so the payload stays raw bytes. */
  lemma NestedOverflowExample()
    ensures Decoded([0x0A, 0x0B, 0x0A, 0x80, 0x80, 0x80, 0x80, 0x80, 0x80, 0x80, 0x80, 0x80, 0x01]) ==
      Ok([(1, Single(Raw([0x0A, 0x80, 0x80, 0x80, 0x80, 0x80, 0x80, 0x80, 0x80, 0x80, 0x01])))])
  {
    var body: seq<byte> := [0x0A, 0x80, 0x80, 0x80, 0x80, 0x80, 0x80, 0x80, 0x80, 0x80, 0x01];
    var s: seq<byte> := [0x0A, 0x0B, 0x0A, 0x80, 0x80, 0x80, 0x80, 0x80, 0x80, 0x80, 0x80, 0x80, 0x01];
    assert s[2..] == body;
    assert VarintAt(s, 0) == Step(Some(0x0A), 1);
    TagOf(s, 0, 0x0A, 1);
    assert VarintAt(s, 1) == Step(Some(11), 2);
    LengthDelimitedPayload(s, 0, 1, 1, Some(11), 2);
    assert s[2..ReadEnd(13, 2, Some(11))] == body;
    RecordsEnd(s);
    RecordsCons(s, 0, Record(1, Raw(body)), 13, []);
    assert [Record(1, Raw(body))] + [] == [Record(1, Raw(body))];
    DecodedOne(s, 1, Raw(body));
    assert Infer(Raw(body), 13) == Raw(body) by {
      DecodeOverflowExample();
      InferRaw(body, 13);
    }
  }

  /** A LEN tag at `pos` followed by the varint of 2^63. */
  lemma OverflowRecord(s: seq<byte>, pos: nat)
    requires pos + 11 <= |s| && s[pos..pos + 11] == [0x0A, 0x80, 0x80, 0x80, 0x80, 0x80, 0x80, 0x80, 0x80, 0x80, 0x01]
    ensures RecordAt(s, pos) == Step(Err(LengthOverflow(SsizeLimit)), pos + 11)
  {
    assert TagAt(s, pos) == Step(Ok(Some(Tag(1, LEN))), pos + 1) by {
      assert s[pos] == 0x0A;
      assert VarintAt(s, pos) == Step(Some(0x0A), pos + 1);
      TagOf(s, pos, 0x0A, pos + 1);
    }
    assert VarintAt(s, pos + 1) == Step(Some(SsizeLimit), pos + 11) by {
      VarintOfLimit();
      assert s[pos + 1..pos + 11] == s[pos..pos + 11][1..];
      VarintRoundTrip(s, pos + 1, SsizeLimit);
    }
    LengthDelimitedPayload(s, pos, 1, pos + 1, Some(SsizeLimit), pos + 11);
  }

  /** 2^63 is nine groups of seven zero bits and a final 1. */
  lemma VarintOfLimit()
    ensures Varint(SsizeLimit) == [0x80, 0x80, 0x80, 0x80, 0x80, 0x80, 0x80, 0x80, 0x80, 0x01]
  {
  }

  /** Truncation is not an error: a LEN record that declares five bytes when
      none follow has an empty payload, which decodes as an empty message. */
  lemma DecodeTruncatedLengthExample()
    ensures Decoded([0x0A, 0x05]) == Ok([(1, Single(Message([])))])
  {
    var s: seq<byte> := [0x0A, 0x05];
    assert VarintAt(s, 0) == Step(Some(0x0A), 1);
    TagOf(s, 0, 0x0A, 1);
    assert VarintAt(s, 1) == Step(Some(5), 2);
    LengthDelimitedPayload(s, 0, 1, 1, Some(5), 2);
    assert s[2..ReadEnd(2, 2, Some(5))] == [];
    RecordsEnd(s);
    RecordsCons(s, 0, Record(1, Raw([])), 2, []);
    assert [Record(1, Raw([]))] + [] == [Record(1, Raw([]))];
    DecodedOne(s, 1, Raw([]));
    DecodeEmpty();
    InferRaw([], 2);
  }

  /** A VARINT cut short is not an error either: the field has no value. */
  lemma DecodeTruncatedVarintExample()
    ensures Decoded([0x08, 0x80]) == Ok([(1, Single(Missing))])
  {
    var s: seq<byte> := [0x08, 0x80];
    assert VarintAt(s, 0) == Step(Some(0x08), 1);
    TagOf(s, 0, 0x08, 1);
    assert VarintAt(s, 1) == Step(None, 2);
    VarintPayload(s, 0, 1, 1, None, 2);
    RecordsEnd(s);
    RecordsCons(s, 0, Record(1, Missing), 2, []);
    assert [Record(1, Missing)] + [] == [Record(1, Missing)];
    DecodedOne(s, 1, Missing);
  }
}

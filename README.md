# qpb Protocol Buffers codec, modelled in Dafny

This project models `qpb/protobuf.py`, a schema-less codec for the Protocol
Buffers wire format. It implements the parts of the Protocol Buffers
encoding guide titled "Base 128 Varints", "Message Structure", "Signed
Integers" and "Length-Delimited Records".

- The **encoder** turns a tree of dynamic values into bytes: integers, text,
  bytes, lists, and dicts from field number to value.
  - An integer becomes a VARINT record. A negative integer is ZigZag-mapped first.
  - Every other accepted value becomes a LEN record.
  - A list is packed: its elements are written without tags.
- The **decoder** reads tagged records from an in-memory byte stream until no
  tag can be read.
  - It collects the payloads per field number.
  - It tries every byte payload as a nested message and keeps the bytes when that fails.
  - It gives a field that occurred once as a bare value.

The modules follow the source:

| module | what it holds |
|---|---|
| `Wire` | bytes, the wire-type enumeration, `Option`/`Result`, the two error kinds |
| `Stream` | the in-memory stream (`io.BytesIO`): a `Reader` class with a cursor |
| `VarintCodec` | `read_varint` and `encode_varint` |
| `ZigZag` | the ZigZag functions |
| `Tags` | `read_tag` and `encode_tag` |
| `Records` | `read_record` and the decoded value types |
| `Encoder` | `encode` and `encode_record` |
| `Decoder` | `decode` |
| `RoundTrip` | what the decoder makes of the encoder's output |

Each reading operation is modelled twice, as the source writes it and as a specification:
- **Imperative:** a method that takes the `Reader` (`ReadVarint`, `ReadTag`, `ReadRecord`) or a method with loops (`EncodeVarint`, `Decode`).
- **Pure:** a function over a byte string and a position that returns the value and the next position (`VarintAt`, `TagAt`, `RecordAt`, `Varint`, `Decoded`).

Each method is proved equal to its function. The properties are then proved about the functions.

Where the code does something other than what a reader of a protocol
description would expect, the model follows the code:
- **Truncation is never an error.**
  - A varint cut short, at its first byte or in the middle, reads as `None`.
  - A truncated tag ends decoding normally.
  - A truncated VARINT payload stores `None` for its field.
  - Fixed-width payloads, and LEN payloads whose declared length is below 2^63, are short reads: whatever bytes are left.
  - A LEN record whose length varint is cut short reads the rest of the stream, which is nothing.
- **A declared LEN length of 2^63 or more is an error,** however few bytes follow.
  - `io.BytesIO.read` converts its size to a signed 64-bit `Py_ssize_t` and raises OverflowError when it does not fit.
  - The model's `LengthOverflow` error stands for it.
  - Inside a nested payload the error only makes the sub-decode fail, so the payload stays raw bytes.
- **I64 and I32 payloads are tried as nested messages too,** because they are bytes like LEN payloads.
- **The two bad-wire-type failures happen in different places.**
  - Codes 6 and 7 fail when the tag is read, because `WireType(...)` rejects them.
  - The group codes 3 and 4 fail in the record reader.
- **Only negative integers are ZigZag-mapped.** So `1` and `-1` encode identically.

## Model

| member | source | states |
|---|---|---|
| Wire.WireType.Code | qpb/protobuf.py:10-16 | every wire type's code is at most 5 and names that wire type again |
| Wire.WireTypeOf | qpb/protobuf.py:125 | `WireType(code)` succeeds exactly for the codes 0 to 5 |
| Stream.ReadEnd | qpb/protobuf.py:61-65 | a read of at most n bytes, for n below 2^63, stops after min(n, what is left) bytes; a read of None stops at the end |
| Stream.Reader.constructor | qpb/protobuf.py:32 | a stream over the input bytes starts at position 0 |
| Stream.Reader.Read | qpb/protobuf.py:61-65 | `read(n)`, for n below 2^63 (larger sizes raise before reading), returns exactly the bytes between the old and new cursor, and the cursor moves as `ReadEnd` says |
| VarintCodec.VarintBytes | qpb/protobuf.py:110-118 | every byte of an encoding but the last has the continuation bit set, and the last has it clear |
| VarintCodec.Varint | qpb/protobuf.py:110-118 | the encoding is never empty; `VarintBytes`, `VarintLength` and `VarintRoundTrip` state its bytes, its length and that reading it gives the value back |
| VarintCodec.VarintLength | qpb/protobuf.py:111 | the encoding has (bit length + 6) // 7 bytes, or 1 for zero; a value has a one-byte encoding exactly when it is below 128 |
| VarintCodec.VarintAt | qpb/protobuf.py:94-107 | a read never goes past the input; a value ends on a byte with the high bit clear; None leaves the cursor at the end |
| VarintCodec.VarintRoundTrip | qpb/protobuf.py:94-118 | reading the encoding of v, wherever it lies and whatever follows it, gives v and stops right after the encoding |
| VarintCodec.VarintExhausted | qpb/protobuf.py:98-107 | the read gives None exactly when every remaining byte has the high bit set, including when none remain |
| VarintCodec.VarintExamples | qpb/protobuf.py:110-118 | 0, 1, 127, 128 and 150 encode as 00, 01, 7F, 80 01 and 96 01 |
| VarintCodec.ReadVarint | qpb/protobuf.py:94-107 | the reading loop returns the value and leaves the cursor where `VarintAt` says |
| VarintCodec.EncodeVarint | qpb/protobuf.py:110-118 | the buffer-filling loop produces exactly `Varint(v)` |
| ZigZag.SignedToZigzag | qpb/protobuf.py:142-146 | the image is non-negative, odd exactly for negative inputs, and `zigzag_to_signed` maps it back to the input |
| ZigZag.ZigzagToSigned | qpb/protobuf.py:135-139 | a non-negative input is the ZigZag image of the result: the result is negative exactly for an odd input, an even input is twice the result, an odd one is minus twice the result less one |
| ZigZag.ZigzagOnto | qpb/protobuf.py:135-139 | every non-negative integer is the ZigZag image of what `zigzag_to_signed` maps it to, so the two are inverse bijections |
| ZigZag.ZigzagExamples | qpb/protobuf.py:135-146 | 0, -1, 1 and -2 map to 0, 1, 2 and 3, and back |
| Tags.EncodeTag | qpb/protobuf.py:128-132 | the tag is empty exactly when no field number is given |
| Tags.TagAt | qpb/protobuf.py:121-125 | the tag is None exactly when the stream is exhausted before a complete varint; it fails exactly for low bits 6 or 7, with that code |
| Tags.TagRoundTrip | qpb/protobuf.py:121-132 | any field number with any of the six wire types reads back as written, and the cursor stops right after the tag |
| Tags.ReadTag | qpb/protobuf.py:121-125 | the method returns what `TagAt` describes and moves the cursor as it says |
| Tags.TagExamples | qpb/protobuf.py:128-132 | field 1 VARINT is 08, field 3 VARINT is 18, field 1 LEN is 0A, and no field number gives nothing |
| Records.RecordAt | qpb/protobuf.py:53-70 | a record is None exactly when the tag is; a returned record advances the cursor and its payload is never a nested message and is shorter than the rest of the input |
| Records.RecordErrors | qpb/protobuf.py:53-70 | the record reader fails with the tag's error; after a good tag it fails exactly for the group wire types (UnknownWireType) and for a LEN length of 2^63 or more (LengthOverflow); otherwise it returns a record with the tag's field number |
| Records.FixedWidthPayload | qpb/protobuf.py:60-63 | an I64 or I32 payload is the next 8 or 4 bytes, or all that is left |
| Records.LengthDelimitedPayload | qpb/protobuf.py:64-65 | a declared length of 2^63 or more is LengthOverflow; a smaller one gives the declared number of bytes or all that is left; with a truncated length varint the payload is empty |
| Records.VarintPayload | qpb/protobuf.py:58-59 | a VARINT payload is the varint after the tag, or None when it is cut short, and the cursor stops after it |
| Records.ReadRecord | qpb/protobuf.py:53-70 | the method, which checks the LEN length before calling `read`, returns what `RecordAt` describes and moves the cursor as it says |
| Encoder.Encode | qpb/protobuf.py:23-28 | encoding succeeds exactly for a dict with nothing unencodable in it; any input that is not a dict is the "has to be a dict" error |
| Encoder.EncodeEntries | qpb/protobuf.py:28 | the joined records succeed exactly when every value is encodable; otherwise the error is "unencodable" |
| Encoder.EncodeRecord | qpb/protobuf.py:73-91 | a record can be encoded exactly when its value is encodable; otherwise the error is "unencodable" |
| Encoder.EncodeItems | qpb/protobuf.py:79-80 | a list body can be encoded exactly when every element is encodable; what it holds is stated by `Untagged` and `ReadBackPacked` |
| Encoder.Untagged | qpb/protobuf.py:73-91 | a record is its tag (VARINT for an integer, LEN otherwise) followed by the same value encoded with no field number, the form a list's elements take |
| Encoder.SignIsLost | qpb/protobuf.py:74-77 | a negative integer is written exactly as the positive integer that is its ZigZag image |
| Encoder.WireInt | qpb/protobuf.py:74-76 | a non-negative integer is written as itself; a negative one as an odd varint that `zigzag_to_signed` maps back to it |
| Encoder.EncodeOneEntry | qpb/protobuf.py:23-28 | a one-entry dict encodes as that entry's record |
| Encoder.EncodeIntExamples | qpb/protobuf.py:73-77 | {1: 150} is 08 96 01, and {1: -1} and {1: 1} are both 08 01 |
| Encoder.EncodeNestedExample | qpb/protobuf.py:81-91 | {1: {2: 7}} is 0A 02 10 07 |
| Encoder.EncodeListExample | qpb/protobuf.py:79-91 | {4: [1, 2]} is packed as 22 02 01 02 |
| Encoder.EncodeErrorExamples | qpb/protobuf.py:24-26 | a bare integer and a dict holding a value of another type are rejected with their two errors |
| Decoder.RecordsFrom | qpb/protobuf.py:35-37 | the records read until the end are raw payloads, each shorter than the input |
| Decoder.Append | qpb/protobuf.py:37 | the field numbers keep their order; a field number not seen before goes last |
| Decoder.Group | qpb/protobuf.py:33-37 | the collecting loop makes no more lists than there are records, and none exactly when there are no records; `GroupKeys` and `GroupCollects` state which lists it makes |
| Decoder.AppendLookup | qpb/protobuf.py:37 | appending adds the payload at the end of its own field's list and leaves every other field's list as it was |
| Decoder.GroupKeys | qpb/protobuf.py:33-37 | the grouping holds each field number once, and exactly the field numbers some record carries |
| Decoder.GroupCollects | qpb/protobuf.py:33-37 | the collecting loop gives each field number exactly its records' payloads in stream order, one list per field number that occurs |
| Decoder.Collapse | qpb/protobuf.py:46-48 | a list of exactly one payload becomes that bare payload; any other list is kept whole |
| Decoder.Finish | qpb/protobuf.py:39-48 | the post-processing pass keeps every field number in its place and replaces its list by the inferred payloads, collapsed to a bare value when there is one |
| Decoder.Infer | qpb/protobuf.py:41-45 | a byte payload becomes the decoded message exactly when it decodes; other payloads and failed decodes are kept as they are |
| Decoder.InferAll | qpb/protobuf.py:41-45 | the inference is applied to every payload of a list, one by one, keeping the length |
| Decoder.Decoded | qpb/protobuf.py:31-50 | decoding fails exactly when reading some record fails |
| Decoder.DecodeShape | qpb/protobuf.py:31-50 | a successful decode has one entry per field number in the stream, none twice; each holds its payloads in stream order after inference, bare when there is exactly one |
| Decoder.DecodeEmpty | qpb/protobuf.py:31-50 | empty input decodes to an empty message |
| Decoder.Decode | qpb/protobuf.py:31-50 | the imperative decode returns exactly `Decoded(data)` |
| Decoder.Collect | qpb/protobuf.py:32-37 | the reading loop fails with the first record's error, or returns the per-field grouping of all records |
| Decoder.InferPayloads | qpb/protobuf.py:41-45 | the in-place loop over a field's list produces the inferred payloads |
| Decoder.InferStep | qpb/protobuf.py:41-45 | one pass of that loop infers the payload at the index and changes no other element |
| Decoder.DecodeRepeatedExample | qpb/protobuf.py:31-50 | 18 05 18 09 decodes to {3: [5, 9]} |
| Decoder.DecodeGroupErrorExample | qpb/protobuf.py:66-68 | the tag 0B (wire type SGROUP) makes the whole decode fail with UnknownWireType, raised by the record reader |
| Decoder.DecodeInvalidCodeExample | qpb/protobuf.py:121-125 | the tag 0E (wire code 6) makes the whole decode fail with InvalidWireType(6), raised by the tag reader |
| Decoder.OverflowRecord | qpb/protobuf.py:64-65 | field 1's LEN tag 0A followed by the varint of 2^63 is a LengthOverflow error, whatever follows |
| Decoder.DecodeOverflowExample | qpb/protobuf.py:31-37 | 0A 80 80 80 80 80 80 80 80 80 01 makes the whole decode fail with LengthOverflow(2^63) |
| Decoder.NestedOverflowExample | qpb/protobuf.py:41-45 | the same bytes as a nested payload only make the sub-decode fail, so the field keeps the raw bytes |
| Decoder.DecodeTruncatedLengthExample | qpb/protobuf.py:64-65 | a LEN record declaring 5 bytes with none left decodes to {1: {}} |
| Decoder.DecodeTruncatedVarintExample | qpb/protobuf.py:100-102 | a VARINT payload cut short decodes to {1: None} |
| RoundTrip.ReadBackVarint | qpb/protobuf.py:58-59 | a VARINT record reads back as its field number and value, and the cursor stops after it |
| RoundTrip.ReadBackDelimited | qpb/protobuf.py:64-65 | a LEN record with a body shorter than 2^63 bytes reads back as its field number and body, and the cursor stops after it |
| RoundTrip.ReadBackRecord | qpb/protobuf.py:73-91 | any encodable value written as a record in an input shorter than 2^63 bytes reads back as its field number and wire payload, whatever follows it |
| RoundTrip.ReadBackPacked | qpb/protobuf.py:79-80 | a list of integers is packed as its elements' varints, untagged and in order: reading varints through the body gives back each element's wire integer, one per element |
| RoundTrip.ReadBackEntries | qpb/protobuf.py:35-37 | reading an encoded dict (shorter than 2^63 bytes) to its end yields one record per entry, in order, without error |
| RoundTrip.GroupDistinct | qpb/protobuf.py:33-37 | records with distinct field numbers are grouped one payload per list, in order |
| RoundTrip.DecodeEncode | qpb/protobuf.py:23-50 | decoding the encoding (shorter than 2^63 bytes) of a message of integers and nested messages, with distinct field numbers, gives it back: integers as their wire integers and fields as bare values |
| RoundTrip.NestedRoundTrip | qpb/protobuf.py:23-50 | `decode(encode({1: {2: 7}}))` is {1: {2: 7}} |

## Left out

- `qpb/__main__.py` is not part of this model. It is a command-line wrapper that only calls the codec.
- The float and double `struct` objects (qpb/protobuf.py:19-20) are unused and floating point.
- `decode` over an `io.BufferedIOBase` (qpb/protobuf.py:32): only byte-string input over the in-memory `Reader` is modelled.
- Encoding a `str` as UTF-8 (qpb/protobuf.py:84) is a library call. `Text` holds the UTF-8 bytes already, so the UnicodeEncodeError that `str.encode()` raises for a lone surrogate has no counterpart in the model.
- `bool` counting as `int` is not modelled.
- Negative or non-integer dict keys are not modelled. Field numbers are `nat`.
- Python's dict keys are unique. The model's `Dict` is a sequence of pairs that may repeat a key: encoding does not depend on uniqueness, and the round-trip lemma asks for it.
- The catch-all `contextlib.suppress(Exception)` (qpb/protobuf.py:44) is modelled as a sub-decode that returns a `Result`. Its only failures are the two wire-type errors and `LengthOverflow`; a recursion-depth error or any other Python exception is not modelled.
- `result[key] = values[0]` and `values[index] = ...` overwrite the `defaultdict` in place. `Decode` builds the output sequence field by field instead. Entry order and contents are the same, and `InferPayloads` updates its list index by index.
- `|=` and `<<` in `read_varint` and `encode_tag` are written as addition and multiplication, because the bits never overlap.
- The integers `read_varint` and `encode_varint` handle are unbounded, as in Python.
- `Py_ssize_t` is taken to be 64 bits wide, as on every 64-bit CPython build. On a 32-bit build the LEN length limit would be 2^31.
- RoundTrip.ReadBackRecord: assumes an input shorter than 2^63 bytes. No Python byte string is longer, and a longer LEN body would be rejected by `read`.
- RoundTrip.ReadBackEntries: assumes an input shorter than 2^63 bytes, for the same reason.
- RoundTrip.DecodeEncode: assumes an encoding shorter than 2^63 bytes, for the same reason.

/** Base-128 varints: unsigned integers of any size written seven bits per
    byte, least significant group first, with the high bit of every byte but
    the last set to say that more bytes follow. */
module VarintCodec {
  import opened Wire
  import opened Stream

  function Pow2(n: nat): (r: nat)
    ensures r >= 1
  {
    if n == 0 then 1 else 2 * Pow2(n - 1)
  }

  lemma {:induction false} Pow2Plus7(n: nat)
    ensures Pow2(n + 7) == 128 * Pow2(n)
  {
    if n == 0 {
      assert Pow2(7) == 128;
    } else {
      Pow2Plus7(n - 1);
    }
  }

  /** Python's `int.bit_length()` on a non-negative integer: the number of
      binary digits, 0 for 0. */
  function BitLength(v: nat): (b: nat)
  {
    if v == 0 then 0 else 1 + BitLength(v / 2)
  }

  /** `v` fits in `n` bits exactly when its bit length is at most `n`. */
  lemma {:induction false} BitLengthBound(v: nat, n: nat)
    ensures v < Pow2(n) <==> BitLength(v) <= n
  {
    if n > 0 {
      BitLengthBound(v / 2, n - 1);
    }
  }

  /** Dropping the low seven bits of a number that has more than seven takes
      seven from its bit length. */
  lemma BitLengthShift7(v: nat)
    requires v >= 128
    ensures BitLength(v) == BitLength(v / 128) + 7
  {
    var b := BitLength(v);
    BitLengthBound(v, 7);
    assert Pow2(7) == 128;
    assert b >= 8;
    BitLengthBound(v, b);
    BitLengthBound(v, b - 1);
    Pow2Plus7(b - 7);
    Pow2Plus7(b - 8);
    BitLengthBound(v / 128, b - 7);
    BitLengthBound(v / 128, b - 8);
  }

  /** The varint encoding of `v`. */
  function Varint(v: nat): (r: seq<byte>)
    ensures |r| >= 1
  {
    if v < 128 then [v] else [v % 128 + 128] + Varint(v / 128)
  }

  /** Every byte of an encoding but the last has its continuation bit set;
      the last has it clear. */
  lemma {:induction false} VarintBytes(v: nat)
    ensures forall i :: 0 <= i < |Varint(v)| - 1 ==> Varint(v)[i] >= 128
    ensures Varint(v)[|Varint(v)| - 1] < 128
  {
    if v >= 128 {
      VarintBytes(v / 128);
      var rest := Varint(v / 128);
      assert Varint(v) == [v % 128 + 128] + rest;
      assert forall i :: 0 < i < |Varint(v)| ==> Varint(v)[i] == rest[i - 1];
    }
  }

  /** The byte count `encode_varint` allocates: `(bit_length + 6) // 7 or 1`,
      that is the larger of 1 and the bit length divided by 7, rounded up. */
  function VarintSize(v: nat): (size: nat)
  {
    var n := (BitLength(v) + 6) / 7;
    if n == 0 then 1 else n
  }

  /** The encoding is as long as the source sizes its buffer: one byte per
      started group of seven bits, and one byte for zero. */
  lemma {:induction false} VarintLength(v: nat)
    ensures |Varint(v)| == VarintSize(v)
    ensures v < 128 <==> |Varint(v)| == 1
    decreases v
  {
    if v < 128 {
      BitLengthBound(v, 7);
      assert Pow2(7) == 128;
    } else {
      VarintLength(v / 128);
      BitLengthShift7(v);
      assert BitLength(v / 128) >= 1;
    }
  }

  /** `read_varint` over a byte string from position `pos`: the value, or None
      when the string ends before a byte with the high bit clear (at the first
      byte or in the middle of the varint); either way the position after the
      bytes consumed. */
  function VarintAt(s: seq<byte>, pos: nat): (r: Step<Option<nat>>)
    requires pos <= |s|
    ensures pos <= r.next <= |s|
    ensures r.value.Some? ==> pos < r.next && s[r.next - 1] < 128
    ensures r.value.None? ==> r.next == |s|
    decreases |s| - pos
  {
    if pos == |s| then Step(None, |s|)
    else if s[pos] < 128 then Step(Some(s[pos]), pos + 1)
    else
      var rest := VarintAt(s, pos + 1);
      Step(if rest.value.Some? then Some(s[pos] - 128 + 128 * rest.value.value) else None, rest.next)
  }

  /** Reading the encoding of `v` back, wherever it stands and whatever
      follows it, gives `v` and stops right after the encoding. */
  lemma {:induction false} VarintRoundTrip(s: seq<byte>, pos: nat, v: nat)
    requires pos + |Varint(v)| <= |s|
    requires s[pos..pos + |Varint(v)|] == Varint(v)
    ensures VarintAt(s, pos) == Step(Some(v), pos + |Varint(v)|)
    decreases v
  {
    assert s[pos] == Varint(v)[0];
    if v >= 128 {
      var tail := Varint(v / 128);
      assert Varint(v) == [v % 128 + 128] + tail;
      assert s[pos + 1..pos + 1 + |tail|] == s[pos..pos + |Varint(v)|][1..];
      VarintRoundTrip(s, pos + 1, v / 128);
    }
  }

  /** Reading yields None exactly when every byte left from `pos` has its
      high bit set (in particular when none is left), and never stops short. */
  lemma {:induction false} VarintExhausted(s: seq<byte>, pos: nat)
    requires pos <= |s|
    ensures VarintAt(s, pos).value.None? <==> forall i :: pos <= i < |s| ==> s[i] >= 128
    decreases |s| - pos
  {
    if pos < |s| && s[pos] >= 128 {
      VarintExhausted(s, pos + 1);
    }
  }

  /** Values from the Protocol Buffers encoding guide. */
  lemma VarintExamples()
    ensures Varint(0) == [0x00]
    ensures Varint(1) == [0x01]
    ensures Varint(127) == [0x7F]
    ensures Varint(128) == [0x80, 0x01]
    ensures Varint(150) == [0x96, 0x01]
  {
  }

  /** `read_varint(reader)`: consumes bytes one at a time until one has its
      high bit clear, adding each byte's low seven bits in at the next
      multiple of seven. */
  method ReadVarint(reader: Reader) returns (r: Option<nat>)
    requires reader.Valid()
    modifies reader
    ensures reader.Valid()
    ensures Step(r, reader.pos) == VarintAt(reader.data, old(reader.pos))
  {
    ghost var start := reader.pos;
    var shift: nat := 0;
    var data: nat := 0;
    var byte: byte := 0x80;
    while byte >= 0x80
      invariant reader.Valid() && start <= reader.pos
      invariant byte >= 0x80 ==> VarintAt(reader.data, start) == Shifted(data, Pow2(shift), VarintAt(reader.data, reader.pos))
      invariant byte < 0x80 ==> VarintAt(reader.data, start) == Step(Some(data), reader.pos)
      decreases |reader.data| - reader.pos, if byte >= 0x80 then 1 else 0
    {
      var result := reader.Read(Some(1));
      if |result| == 0 {
        return None;
      }
      byte := result[0];
      assert byte == reader.data[reader.pos - 1];
      VarintStep(reader.data, reader.pos, byte, data, Pow2(shift));
      Pow2Plus7(shift);
      // the bits added never overlap those already there, so `|=` adds them
      data := data + (byte % 0x80) * Pow2(shift);
      shift := shift + 7;
    }
    r := Some(data);
  }

  /** A varint read so far: `low` already accumulated, the rest to be scaled by `scale`. */
  function Shifted(low: nat, scale: nat, rest: Step<Option<nat>>): (r: Step<Option<nat>>)
  {
    Step(if rest.value.Some? then Some(low + scale * rest.value.value) else None, rest.next)
  }

  /** One more byte read: a continuation byte moves its seven bits into the
      accumulated value and scales the rest by 128; a final byte completes it. */
  lemma VarintStep(s: seq<byte>, p: nat, b: byte, low: nat, scale: nat)
    requires 0 < p <= |s| && s[p - 1] == b
    ensures (b % 128) * scale >= 0
    ensures b >= 128 ==>
      Shifted(low, scale, VarintAt(s, p - 1)) == Shifted(low + (b % 128) * scale, 128 * scale, VarintAt(s, p))
    ensures b < 128 ==>
      Shifted(low, scale, VarintAt(s, p - 1)) == Step(Some(low + (b % 128) * scale), p)
  {
    var rest := VarintAt(s, p);
    assert VarintAt(s, p - 1) == if b < 128 then Step(Some(b as nat), p)
      else Step(if rest.value.Some? then Some(b - 128 + 128 * rest.value.value) else None, rest.next);
    if b >= 128 && rest.value.Some? {
      Regroup(low, scale, b - 128, rest.value.value);
    }
  }

  /** The arithmetic of one step: the group's bits at the current scale, the
      rest at the next. */
  lemma Regroup(low: nat, scale: nat, g: nat, v: nat)
    ensures low + scale * (g + 128 * v) == (low + g * scale) + (128 * scale) * v
  {
  }


  /** `encode_varint(value)`: sizes a buffer from the bit length, fills every
      byte but the last with seven low bits and the continuation bit while
      shifting the value right, and puts what is left in the last byte. */
  method EncodeVarint(v: nat) returns (r: seq<byte>)
    ensures r == Varint(v)
  {
    VarintLength(v);
    var dataLength := VarintSize(v);
    var data := new byte[dataLength];
    var value := v;
    for index := 0 to dataLength - 1
      invariant forall k :: 0 <= k < index ==> data[k] == Varint(v)[k]
      invariant Varint(v)[index..] == Varint(value)
      invariant |Varint(value)| == dataLength - index
    {
      VarintLength(value);
      VarintRest(Varint(v), index, value);
      data[index] := value % 0x80 + 0x80;
      value := value / 0x80;
    }
    VarintLength(value);
    assert Varint(v)[dataLength - 1] == value by {
      assert Varint(v)[dataLength - 1..] == [value];
    }
    data[dataLength - 1] := value;
    r := data[..];
  }

  /** Where the rest of an encoding is the encoding of a number of eight bits
      or more, its next byte holds that number's low seven bits and the
      continuation bit, and the encoding of the number shifted right follows. */
  lemma VarintRest(r: seq<byte>, index: nat, value: nat)
    requires index <= |r| && r[index..] == Varint(value) && value >= 128
    ensures index + 1 < |r| && r[index] == value % 128 + 128
    ensures r[index + 1..] == Varint(value / 128)
  {
    assert r[index + 1..] == r[index..][1..];
  }
}

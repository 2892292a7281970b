/** Basic vocabulary of the Protocol Buffers wire format as the codec uses it:
    bytes, the wire-type enumeration, optional and fallible results, and the
    errors the codec raises. */
module Wire {

  /** One octet of wire data. */
  type byte = b: int | 0 <= b < 256

  /** Python's `None`-or-value. */
  datatype Option<+T> = None | Some(value: T)

  /** A value, or the exception that a Python call would have raised instead. */
  datatype Result<+T, +E> = Ok(value: T) | Err(error: E)

  /** What a reading operation produced, and the cursor position after it. */
  datatype Step<+T> = Step(value: T, next: nat)

  /** The wire types of the Protocol Buffers encoding, with the standard's own
      names; the three low bits of a tag hold one of their codes. */
  datatype WireType = VARINT | I64 | LEN | SGROUP | EGROUP | I32
  {
    function Code(): (c: nat)
      ensures c <= 5
      ensures WireTypeOf(c) == Some(this)
    {
      match this
      case VARINT => 0
      case I64 => 1
      case LEN => 2
      case SGROUP => 3
      case EGROUP => 4
      case I32 => 5
    }
  }

  /** `WireType(code)`: the enumeration member with that code, if there is one. */
  function WireTypeOf(code: nat): (r: Option<WireType>)
    ensures r.Some? <==> code <= 5
  {
    if code == 0 then Some(VARINT)
    else if code == 1 then Some(I64)
    else if code == 2 then Some(LEN)
    else if code == 3 then Some(SGROUP)
    else if code == 4 then Some(EGROUP)
    else if code == 5 then Some(I32)
    else None
  }

  /** Failures of decoding. */
  datatype DecodeError =
    /** `WireType(code)` rejects a tag whose low three bits are 6 or 7 (a ValueError). */
    | InvalidWireType(code: nat)
    /** The record reader rejects the group wire types ("Unknown wire type", a TypeError). */
    | UnknownWireType(wireType: WireType)
    /** `io.BytesIO.read` rejects a size that does not fit a C `Py_ssize_t` (an OverflowError). */
    | LengthOverflow(length: nat)

  /** Failures of encoding (both are TypeErrors in Python). */
  datatype EncodeError =
    /** "type to encode has to be a dict" */
    | NotADict
    /** "Unencodable type: ..." */
    | Unencodable

  /** 2 to the 63rd: the first size that does not fit the signed 64-bit
      `Py_ssize_t` that `io.BytesIO.read` converts its argument to. */
  const SsizeLimit: nat := 0x8000_0000_0000_0000

  function Min(a: nat, b: nat): (m: nat)
    ensures m <= a && m <= b && (m == a || m == b)
  {
    if a <= b then a else b
  }
}

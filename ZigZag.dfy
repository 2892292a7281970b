/** The ZigZag mapping between signed integers and non-negative ones
    (0, -1, 1, -2, ... become 0, 1, 2, 3, ...). */
module ZigZag {

  /** `signed_to_zigzag(value)`: twice the value, and for a negative value the
      negation of that minus one. */
  function SignedToZigzag(value: int): (r: int)
    ensures r >= 0
    ensures ZigzagToSigned(r) == value
    ensures r % 2 == 1 <==> value < 0
  {
    var result := value * 2;
    if value < 0 then -result - 1 else result
  }

  /** `zigzag_to_signed(value)`: the value shifted right by one (floor
      division), negated and decremented when the low bit is set. A
      non-negative value is the image of the result: twice a non-negative
      result, or one less than minus twice a negative one. */
  function ZigzagToSigned(value: int): (r: int)
    ensures value >= 0 ==> (r < 0 <==> value % 2 == 1)
    ensures value >= 0 && r >= 0 ==> value == 2 * r
    ensures value >= 0 && r < 0 ==> value == -2 * r - 1
  {
    var result := value / 2;
    if value % 2 == 1 then -result - 1 else result
  }

  /** Every non-negative integer is the image of exactly the integer it maps
      back to, so the two functions are inverse bijections. */
  lemma ZigzagOnto(value: int)
    requires value >= 0
    ensures SignedToZigzag(ZigzagToSigned(value)) == value
  {
  }

  lemma ZigzagExamples()
    ensures SignedToZigzag(0) == 0 && SignedToZigzag(-1) == 1
    ensures SignedToZigzag(1) == 2 && SignedToZigzag(-2) == 3
    ensures ZigzagToSigned(3) == -2 && ZigzagToSigned(4) == 2
  {
  }
}

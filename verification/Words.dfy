// Fixed-width integers: the signed value of the low 32 or 64 bits.
module Words {

  const TWO_31: int := 0x8000_0000
  const TWO_32: int := 0x1_0000_0000
  const TWO_63: int := 0x8000_0000_0000_0000
  const TWO_64: int := 0x1_0000_0000_0000_0000

  // x as int32_t, in two's complement.
  function Int(x: int): (v: int)
    ensures -TWO_31 <= v < TWO_31
    ensures -TWO_31 <= x < TWO_31 ==> v == x
  {
    var r := x % TWO_32;
    if r < TWO_31 then r else r - TWO_32
  }

  // x as long, in two's complement.
  function Long(x: int): (v: int)
    ensures -TWO_63 <= v < TWO_63
    ensures -TWO_63 <= x < TWO_63 ==> v == x
  {
    var r := x % TWO_64;
    if r < TWO_63 then r else r - TWO_64
  }

  // The one number of the range that agrees with x in the low 32 or 64 bits.
  lemma IntIsCongruent(x: int)
    ensures (x - Int(x)) % 0x1_0000_0000 == 0
  {
  }

  lemma LongIsCongruent(x: int)
    ensures (x - Long(x)) % 0x1_0000_0000_0000_0000 == 0
  {
  }
}

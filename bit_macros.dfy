/**
 * The end-flag macros of BitManipulateMacros.h. Each macro's argument is
 * promoted to `unsigned int`, so the model works on 32-bit words; bit 15
 * marks the last 16-bit word of a packed sequence and the 15 bits below it
 * carry the payload.
 */
module BitMacros {

  const EndFlag: bv32 := 0x8000
  const PayloadMask: bv32 := 0x7fff

  /** SET_END_FLAG: turns bit 15 on and leaves every other bit as it was. */
  function SetEndFlag(num: bv32): (r: bv32)
    ensures r & EndFlag == EndFlag
    ensures r & !EndFlag == num & !EndFlag
  {
    0x8000 | num
  }

  /** IS_LAST_15_BITS: nonzero exactly when bit 15 is set; never sees any other bit. */
  function IsLast15Bits(num: bv32): (r: bv32)
    ensures r != 0 <==> num & EndFlag != 0
    ensures r == 0 || r == EndFlag
  {
    0x8000 & num
  }

  /** GET_15_BITS: the payload, the low 15 bits of the word. */
  function Get15Bits(num: bv32): (r: bv32)
    ensures r < 0x8000
    ensures r & PayloadMask == num & PayloadMask
  {
    0x7fff & num
  }

  /** DECODE_15_BITS: lays the payload of `num` over `diff`. */
  function Decode15Bits(diff: bv32, num: bv32): (r: bv32)
    ensures diff & PayloadMask == 0 ==> Get15Bits(r) == Get15Bits(num)
    ensures r & !PayloadMask == diff & !PayloadMask
  {
    diff | Get15Bits(num)
  }

  lemma SetEndFlagIsLast(num: bv32)
    ensures IsLast15Bits(SetEndFlag(num)) != 0
  {
  }

  lemma Get15BitsIdempotent(num: bv32)
    ensures Get15Bits(Get15Bits(num)) == Get15Bits(num)
  {
  }

  lemma Get15BitsIgnoresEndFlag(num: bv32)
    ensures Get15Bits(SetEndFlag(num)) == Get15Bits(num)
    ensures IsLast15Bits(Get15Bits(num)) == 0
  {
  }
}

/** Java's fixed-width integers and the wrap-around of `int` arithmetic and `(int)` casts. */
module JavaInts {

  const TWO_TO_31: int := 0x8000_0000
  const TWO_TO_32: int := 0x1_0000_0000

  newtype int32 = x: int | -0x8000_0000 <= x < 0x8000_0000
  newtype int64 = x: int | -0x8000_0000_0000_0000 <= x < 0x8000_0000_0000_0000

  const INT_MAX: int32 := 0x7fff_ffff

  /** Two's-complement truncation to 32 bits: the result of Java's `int`
      addition and of a `(int)` cast from `long`. */
  function Wrap32(x: int): (r: int32)
    ensures (r as int - x) % TWO_TO_32 == 0
    ensures -TWO_TO_31 <= x < TWO_TO_31 ==> r as int == x
  {
    var m := x % TWO_TO_32;
    if m >= TWO_TO_31 then (m - TWO_TO_32) as int32 else m as int32
  }

  /** Java's `a + b` on two `int`s. */
  function AddInt(a: int32, b: int32): (r: int32)
    ensures -TWO_TO_31 <= a as int + b as int < TWO_TO_31 ==> r as int == a as int + b as int
    ensures a as int + b as int >= TWO_TO_31 ==> r as int == a as int + b as int - TWO_TO_32
    ensures a as int + b as int < -TWO_TO_31 ==> r as int == a as int + b as int + TWO_TO_32
  {
    Wrap32(a as int + b as int)
  }

  /** Java's `(int) v` on a `long`. */
  function LongToInt(v: int64): (r: int32)
    ensures -TWO_TO_31 <= v as int < TWO_TO_31 ==> r as int == v as int
    ensures (r as int - v as int) % TWO_TO_32 == 0
  {
    Wrap32(v as int)
  }
}

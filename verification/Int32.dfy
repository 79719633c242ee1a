/** Numbers as 8-bit and 32-bit storage holds them. */
module Int32 {
  const TWO32 := 0x1_0000_0000

  type Byte = x: int | 0 <= x < 256
  type I32 = x: int | -0x8000_0000 <= x < 0x8000_0000

  /** What a signed 32-bit cell holds after a number is stored in it. */
  function ToI32(x: int): (r: I32)
    ensures (x - r) % TWO32 == 0
  {
    var m := x % TWO32;
    if m < 0x8000_0000 then m else m - TWO32
  }

  /** The bytes of an ASCII string. */
  function Ascii(s: string): (r: seq<Byte>)
    requires forall i :: 0 <= i < |s| ==> s[i] as int < 128
    ensures |r| == |s|
  {
    seq(|s|, i requires 0 <= i < |s| => s[i] as int)
  }
}

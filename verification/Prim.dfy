/** Fixed-width unsigned integers and the optional value, shared by every component. */
module Prim {

  type u8 = x: int | 0 <= x < 0x100
  type u16 = x: int | 0 <= x < 0x1_0000
  type u32 = x: int | 0 <= x < 0x1_0000_0000

  /** A 32-bit pattern read as a signed number. */
  function Signed32(i: int): int {
    var w := i % 0x1_0000_0000;
    if w < 0x8000_0000 then w else w - 0x1_0000_0000
  }

  datatype Option<+T> = None | Some(value: T)

  function BitWeight(i: nat): nat
    requires i < 8
  {
    if i == 0 then 1 else if i == 1 then 2 else if i == 2 then 4 else if i == 3 then 8
    else if i == 4 then 16 else if i == 5 then 32 else if i == 6 then 64 else 128
  }

  /** Bit i of a byte. */
  predicate Bit(v: u8, i: nat)
    requires i < 8
  {
    v / BitWeight(i) % 2 == 1
  }

  /** `s` with the bytes from `at` on overwritten by `t`. */
  function Splice<T>(s: seq<T>, at: nat, t: seq<T>): (r: seq<T>)
    requires at + |t| <= |s|
    ensures |r| == |s|
  {
    s[..at] + t + s[at + |t|..]
  }
}

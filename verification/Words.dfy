// Machine words as bounded integers. Every wrap-around of the release build
// (overflow checks are off there) is written out with Wrap32 or an explicit modulus.

module Words {

  type u2 = x: int | 0 <= x < 4
  type u3 = x: int | 0 <= x < 8
  type u8 = x: int | 0 <= x < 0x100
  type u16 = x: int | 0 <= x < 0x1_0000
  type u32 = x: int | 0 <= x < 0x1_0000_0000
  type u64 = x: int | 0 <= x < 0x1_0000_0000_0000_0000

  /** Addresses with the top bit set are writable, the others are read-only. */
  const WRITEABLE_MEMORY: u32 := 0x8000_0000

  function Wrap32(x: int): u32 {
    x % 0x1_0000_0000
  }

  function Wrap64(x: int): u64 {
    x % 0x1_0000_0000_0000_0000
  }

  /** u64::saturating_sub */
  function SatSub(a: u64, b: u64): u64 {
    if a < b then 0 else a - b
  }

  /** `v as i8 as i32 as u32` */
  function Sx8To32(v: u8): u32 {
    if v < 0x80 then v else v + 0xFFFF_FF00
  }

  /** `v as i8 as i16 as u16` */
  function Sx8To16(v: u8): u16 {
    if v < 0x80 then v else v + 0xFF00
  }

  /** `v as i16 as i32 as u32` */
  function Sx16To32(v: u16): u32 {
    if v < 0x8000 then v else v + 0xFFFF_0000
  }

  // Little-endian bytes, as from_le_bytes and to_le_bytes read and write them.

  function Le16(b: seq<u8>): u16
    requires |b| == 2
  {
    b[0] as int + 0x100 * b[1] as int
  }

  function Le32(b: seq<u8>): u32
    requires |b| == 4
  {
    b[0] as int + 0x100 * b[1] as int + 0x1_0000 * b[2] as int + 0x100_0000 * b[3] as int
  }

  function Le64(b: seq<u8>): u64
    requires |b| == 8
  {
    Le32(b[..4]) as int + 0x1_0000_0000 * Le32(b[4..]) as int
  }

  function Bytes16(v: u16): (b: seq<u8>)
    ensures |b| == 2 && Le16(b) == v
  {
    [v % 0x100, v / 0x100]
  }

  function Bytes32(v: u32): (b: seq<u8>)
    ensures |b| == 4 && Le32(b) == v
  {
    var v1: int := v / 0x100;
    var v2: int := v1 / 0x100;
    [v % 0x100, v1 % 0x100, v2 % 0x100, v2 / 0x100]
  }

  function Bytes64(v: u64): (b: seq<u8>)
    ensures |b| == 8 && Le64(b) == v
  {
    var lo, hi := Bytes32(v % 0x1_0000_0000), Bytes32(v / 0x1_0000_0000);
    assert (lo + hi)[..4] == lo && (lo + hi)[4..] == hi;
    lo + hi
  }
}

// Arithmetic of the instructions on plain numbers and flags.

module Arithmetic {
  import opened Words
  import opened Structs
  import opened BitManip
  import opened FlagBits

  /** Number of bits of an operand size, 8, 16 or 32. */
  function Bits(size: ValueSize): nat {
    if size == SizeByte then 8 else if size == SizeWord then 16 else 32
  }

  /** 2 to the number of bits. */
  function Modulus(size: ValueSize): nat {
    if size == SizeByte then 0x100 else if size == SizeWord then 0x1_0000 else 0x1_0000_0000
  }

  /** The number read as two's complement. */
  function Signed(v: nat, size: ValueSize): int {
    if v < Modulus(size) / 2 then v else v - Modulus(size)
  }

  predicate SignedOverflows(x: int, size: ValueSize) {
    x < -(Modulus(size) / 2) || x >= Modulus(size) / 2
  }

  datatype AdjustType = Inc | Dec | Untouched

  /** get_flags */
  function GetFlags(f: Flags, result: u32, source: u32, destination: u32, overflow: bool, carry: bool,
                    adjust: AdjustType, size: ValueSize): Flags
  {
    f.(overflow := overflow,
       carry := carry,
       zero := result == 0,
       parity := EvenParity(result),
       adjust := match adjust
                 case Dec => destination % 16 < source % 16
                 case Inc => destination % 16 + source % 16 > 15
                 case Untouched => f.adjust,
       sign := result % Modulus(size) >= Modulus(size) / 2)
  }

  /** The result and flags of add_8bit, add_16bit and add_32bit. */
  function AddWithFlags(f: Flags, base: u32, adder: u32, size: ValueSize): (u32, Flags)
  {
    var result := (base as int + adder as int) % Modulus(size);
    var carry := base as int + adder as int >= Modulus(size);
    var overflow := SignedOverflows(Signed(base, size) + Signed(adder, size), size);
    (result, GetFlags(f, result, adder, base, overflow, carry, Inc, size))
  }

  /** The result and flags of the sub and cmp functions. */
  function SubWithFlags(f: Flags, base: u32, subt: u32, size: ValueSize): (u32, Flags)
  {
    var result := (base as int - subt as int) % Modulus(size);
    var carry := base < subt;
    var overflow := SignedOverflows(Signed(base, size) - Signed(subt, size), size);
    (result, GetFlags(f, result, subt, base, overflow, carry, Dec, size))
  }

  /** The destination adc_8bit and adc_native_word store before they add. */
  function CarryIn(f: Flags, base: u32, size: ValueSize): u32 {
    (base as int + if f.carry then 1 else 0) % Modulus(size)
  }

  function AdcWithFlags(f: Flags, base: u32, adder: u32, size: ValueSize): (u32, Flags) {
    AddWithFlags(f, CarryIn(f, base, size), adder, size)
  }

  /** cc_matches: the sixteen condition codes. */
  predicate CcMatches(opcode: u8, f: Flags) {
    match opcode % 16
    case 0x0 => f.overflow
    case 0x1 => !f.overflow
    case 0x2 => f.carry
    case 0x3 => !f.carry
    case 0x4 => f.zero
    case 0x5 => !f.zero
    case 0x6 => f.carry || f.zero
    case 0x7 => !f.carry && !f.zero
    case 0x8 => f.sign
    case 0x9 => !f.sign
    case 0xA => f.parity
    case 0xB => !f.parity
    case 0xC => f.sign != f.overflow
    case 0xD => f.sign == f.overflow
    case 0xE => f.sign != f.overflow || f.zero
    case _ => f.sign == f.overflow && !f.zero
  }

  /** What daa makes of AL: 6 added for the low digit, 0x60 for the high one. */
  function DaaResult(al: u8, adjust: bool, carry: bool): u8 {
    var fixed := DaaLow(al, adjust);
    if al > 0x99 || carry then (fixed as int + 0x60) % 0x100 else fixed
  }

  function DaaLow(al: u8, adjust: bool): u8 {
    if al % 16 > 9 || adjust then (al as int + 6) % 0x100 else al
  }

  /** daa on the value of AL. */
  function DaaWithFlags(f: Flags, al: u8): (u8, Flags) {
    var result := DaaResult(al, f.adjust, f.carry);
    (result, f.(carry := al > 0x99 || f.carry, adjust := al % 16 > 9 || f.adjust,
                parity := EvenParity(result), sign := result >= 0x80, zero := result == 0))
  }

  /** Bitwise or. */
  function Or(a: nat, b: nat): nat
    decreases a, b
  {
    if a == 0 && b == 0 then 0
    else 2 * Or(a / 2, b / 2) + if a % 2 == 1 || b % 2 == 1 then 1 else 0
  }

  /** `a << n` in an integer of `width` bits. */
  function Shl(a: nat, n: nat, width: nat): nat {
    var shifted: nat := a * Pow2(n);
    shifted % Pow2(width)
  }

  /** `a >> n` */
  function Shr(a: nat, n: nat): nat {
    Divided(a, Pow2(n))
  }

  function Divided(a: nat, d: nat): nat
    requires d >= 1
  {
    a / d
  }

  /** The count rotates use, from the value of the count operand. */
  function RotateCount(count: u32, size: ValueSize): nat {
    if size == SizeByte then count % 32 % 8 else if size == SizeWord then count % 32 % 16 else count % 32
  }

  /** `base << count | base >> (w + 1 - count)` in an integer of 2w bits. */
  function RclBits(base: nat, count: nat, w: nat): nat
    requires count <= w + 1
  {
    Or(Shl(base, count, 2 * w), Shr(base, w + 1 - count))
  }

  /** `base >> count | base << (w + 1 - count)` in an integer of 2w bits. */
  function RcrBits(base: nat, count: nat, w: nat): nat
    requires count <= w + 1
  {
    Or(Shr(base, count), Shl(base, w + 1 - count, 2 * w))
  }

  function CarryBit(f: Flags): nat {
    if f.carry then 1 else 0
  }

  /** rcl_8bit, rcl_16bit and rcl_32bit for a reduced count that is not 0. */
  function RclWithFlags(f: Flags, destination: u32, count: nat, size: ValueSize): (u32, Flags)
    requires 0 < count < Bits(size)
  {
    var w := Bits(size);
    var result := RclBits(2 * destination + CarryBit(f), count, w);
    var carry := GetBit(result, w + 1);
    var shifted := result / 2 % Modulus(size);
    var top := if size == SizeDword then GetBit(shifted, 31) else GetBit(result, w - 1);
    (shifted, f.(carry := carry, overflow := if count == 1 then top != carry else f.overflow))
  }

  /** rcr_8bit, rcr_16bit and rcr_32bit for a reduced count that is not 0. */
  function RcrWithFlags(f: Flags, destination: u32, count: nat, size: ValueSize): (u32, Flags)
    requires 0 < count < Bits(size)
  {
    var w := Bits(size);
    var result := RcrBits(destination + CarryBit(f) * Modulus(size), count, w);
    var carry := GetBit(result, w);
    var kept := result % Modulus(size);
    (kept, f.(carry := carry,
              overflow := if count == 1 then GetBit(kept, w - 1) != GetBit(kept, w - 2) else f.overflow))
  }

  lemma SmallMod(x: nat, m: nat)
    requires x < m
    ensures x % m == x
  {
  }
}

// Multi-byte decimal addition with adc and daa.

module Bcd {
  import opened Words
  import opened Structs
  import opened FlagBits
  import opened Errors
  import opened VMState
  import opened Opcodes
  import Fetch
  import opened Arithmetic
  import Ops

  /** Two decimal digits in a byte. */
  predicate Packed(b: u8) {
    b % 16 <= 9 && b / 16 <= 9
  }

  predicate AllPacked(s: seq<u8>) {
    forall i :: 0 <= i < |s| ==> Packed(s[i])
  }

  function Decimal(b: u8): nat {
    b / 16 * 10 + b % 16
  }

  function Pow100(n: nat): nat {
    if n == 0 then 1 else 100 * Pow100(n - 1)
  }

  /** The number in a little-endian run of packed bytes. */
  function Value(s: seq<u8>): nat {
    if s == [] then 0 else Decimal(s[0]) + 100 * Value(s[1..])
  }

  /** `adc al, b; daa` on one byte. */
  function AddByte(f: Flags, a: u8, b: u8): (u8, Flags) {
    var (sum, g) := AdcWithFlags(f, a, b, SizeByte);
    DaaWithFlags(g, sum)
  }

  /** The loop over n bytes, least significant first, carrying the flags along. */
  function AddBytes(f: Flags, a: seq<u8>, b: seq<u8>): (seq<u8>, Flags)
    requires |a| == |b|
    decreases |a|
  {
    if a == [] then ([], f)
    else
      var (digit, g) := AddByte(f, a[0], b[0]);
      var (rest, h) := AddBytes(g, a[1..], b[1..]);
      ([digit] + rest, h)
  }

  /** adc of packed bytes: the binary sum with the carries out of both digits. */
  lemma AdcOfPacked(f: Flags, a: u8, b: u8)
    requires Packed(a) && Packed(b)
    ensures var high, low := a / 16 + b / 16, a % 16 + b % 16 + CarryBit(f);
            var (sum, g) := AdcWithFlags(f, a, b, SizeByte);
            && (g.carry <==> 16 * high + low >= 0x100)
            && sum == (if g.carry then 16 * high + low - 0x100 else 16 * high + low)
            && (g.adjust <==> low > 15)
  {
    hide EvenParity, SignedOverflows, Signed;
    var first := CarryIn(f, a, SizeByte);
    assert a == 16 * (a / 16) + a % 16 && b == 16 * (b / 16) + b % 16;
    assert first == a + CarryBit(f) && first % 16 == a % 16 + CarryBit(f);
    var (sum, g) := AdcWithFlags(f, a, b, SizeByte);
    assert sum == (first as int + b as int) % 0x100;
    hide AdcWithFlags, CarryIn;
  }

  lemma Digits(k: nat, r: nat)
    requires r < 16
    ensures (16 * k + r) % 16 == r && (16 * k + r) / 16 == k
  {
  }

  lemma DaaLowDigit(high: nat, low: nat, sum: u8, adjust: bool, carry: bool)
    requires high <= 18 && low <= 19 && sum == if carry then 16 * high + low - 0x100 else 16 * high + low
    requires (carry <==> 16 * high + low >= 0x100) && (adjust <==> low > 15)
    ensures var fixed := if low > 9 then 16 * high + low + 6 else 16 * high + low;
            DaaLow(sum, adjust) == if fixed >= 0x100 then fixed - 0x100 else fixed
  {
    var k := (if carry then high - 16 else high) + (if low > 15 then 1 else 0);
    var r := if low > 15 then low - 16 else low;
    assert sum == 16 * k + r;
    Digits(k, r);
  }

  /** daa on a binary sum of digits gives the decimal sum of the same digits. */
  lemma DaaOfSum(high: nat, low: nat, sum: u8, adjust: bool, carry: bool)
    requires high <= 18 && low <= 19 && sum == if carry then 16 * high + low - 0x100 else 16 * high + low
    requires (carry <==> 16 * high + low >= 0x100) && (adjust <==> low > 15)
    ensures var tens, ones := if low > 9 then high + 1 else high, if low > 9 then low - 10 else low;
            && (sum > 0x99 || carry <==> tens > 9)
            && DaaResult(sum, adjust, carry) == (if tens > 9 then 16 * (tens - 10) + ones else 16 * tens + ones)
  {
    DaaLowDigit(high, low, sum, adjust, carry);
    hide DaaLow;
  }

  lemma AddByteIsDecimal(f: Flags, a: u8, b: u8)
    requires Packed(a) && Packed(b)
    ensures var (digit, g) := AddByte(f, a, b);
            && Packed(digit)
            && Decimal(digit) + 100 * CarryBit(g) == Decimal(a) + Decimal(b) + CarryBit(f)
  {
    hide EvenParity, DaaResult, AdcWithFlags;
    AdcOfPacked(f, a, b);
    var high, low := a / 16 + b / 16, a % 16 + b % 16 + CarryBit(f);
    var (sum, g) := AdcWithFlags(f, a, b, SizeByte);
    DaaOfSum(high, low, sum, g.adjust, g.carry);
    var tens, ones := if low > 9 then high + 1 else high, if low > 9 then low - 10 else low;
    Digits(if tens > 9 then tens - 10 else tens, ones);
  }

  /** Adding n packed bytes with adc and daa is decimal addition: the result is
      packed, and together with the final carry it is the exact sum. */
  lemma {:induction false} AddBytesIsDecimal(f: Flags, a: seq<u8>, b: seq<u8>)
    requires |a| == |b| && AllPacked(a) && AllPacked(b)
    ensures var (sum, g) := AddBytes(f, a, b);
            && |sum| == |a| && AllPacked(sum)
            && Value(sum) + Pow100(|a|) * CarryBit(g) == Value(a) + Value(b) + CarryBit(f)
    decreases |a|
  {
    hide AddByte, Decimal, Packed, CarryBit;
    if a != [] {
      AddByteIsDecimal(f, a[0], b[0]);
      var (digit, g) := AddByte(f, a[0], b[0]);
      AddBytesIsDecimal(g, a[1..], b[1..]);
      var (rest, h) := AddBytes(g, a[1..], b[1..]);
      var sum := [digit] + rest;
      assert sum[1..] == rest;
      var c := CarryBit(h);
      assert Pow100(|a|) * c == 100 * (Pow100(|a| - 1) * c);
    }
  }

  /** Executing `adc al, source` and then `daa` is AddByte on AL and the source,
      as long as the source does not change when AL does. */
  lemma AdcThenDaa(c: Cpu, p: Fetch.Slot, b: u8)
    requires p.args[0].location == RegisterValue(AL, SizeByte)
    requires forall x: u8 :: GetArg(SetReg(c.regs, AL, Byte(x)), c.mem, p.args[1].location) == Ok(Byte(b))
    ensures var (digit, g) := AddByte(c.flags, c.regs[EAX] % 0x100, b);
            var summed := Ops.CpuOp(c, Alu(Adc, Narrow), p);
            && summed.Done?
            && Ops.CpuOp(summed.value, Daa, p) == Done(c.(regs := SetReg(c.regs, AL, Byte(digit)), flags := g))
  {
    hide GetFlags, DaaWithFlags;
    var al := c.regs[EAX] % 0x100;
    var first := CarryIn(c.flags, al, SizeByte);
    var (sum, g) := AddWithFlags(c.flags, first, b, SizeByte);
    var c1 := c.(regs := SetReg(c.regs, AL, Byte(first)));
    assert sum < 0x100;
    LowByte(c.regs, first);
    LowByte(c.regs, sum);
    assert SetArg(c, p.args[0].location, Byte(first)) == Done(c1);
    LowByteTwice(c.regs, first, sum);
    var c2 := c.(regs := SetReg(c.regs, AL, Byte(sum)), flags := g);
    assert Ops.AddOp(c1, p, SizeByte) == Done(c2);
    assert Ops.AdcOp(c, p, SizeByte) == Done(c2);
    LowByteTwice(c.regs, sum, DaaWithFlags(g, sum).0);
  }

  lemma LowByte(r: Regs, x: u8)
    ensures SetReg(r, AL, Byte(x))[EAX] % 0x100 == x
  {
  }

  lemma LowByteTwice(r: Regs, x: u8, y: u8)
    ensures SetReg(SetReg(r, AL, Byte(x)), AL, Byte(y)) == SetReg(r, AL, Byte(y))
  {
    LowByte(r, x);
  }
}

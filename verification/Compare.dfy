// What the condition codes decide after cmp, and where adc's carry is exact.

module Compare {
  import opened Words
  import opened Structs
  import BitManip
  import opened FlagBits
  import opened Arithmetic

  /** The relation each condition code names, between the operands of a cmp of
      the given width (Appendix B of the Intel SDM, volume 1). */
  ghost predicate Relation(cc: u8, a: u32, b: u32, size: ValueSize) {
    var difference := (a as int - b as int) % Modulus(size);
    match cc
    case 0x0 => Signed(a, size) - Signed(b, size) != Signed(difference, size)
    case 0x1 => Signed(a, size) - Signed(b, size) == Signed(difference, size)
    case 0x2 => a < b
    case 0x3 => a >= b
    case 0x4 => a == b
    case 0x5 => a != b
    case 0x6 => a <= b
    case 0x7 => a > b
    case 0x8 => Signed(difference, size) < 0
    case 0x9 => Signed(difference, size) >= 0
    case 0xA => |BitManip.SetBits(difference, 8)| % 2 == 0
    case 0xB => |BitManip.SetBits(difference, 8)| % 2 == 1
    case 0xC => Signed(a, size) < Signed(b, size)
    case 0xD => Signed(a, size) >= Signed(b, size)
    case 0xE => Signed(a, size) <= Signed(b, size)
    case _ => Signed(a, size) > Signed(b, size)
  }

  lemma ModularDifference(a: u32, b: u32, size: ValueSize)
    requires a < Modulus(size) && b < Modulus(size)
    ensures (a as int - b as int) % Modulus(size) == if a >= b then a - b else a - b + Modulus(size)
  {
  }

  lemma ModularSum(a: nat, b: nat, size: ValueSize)
    requires a < Modulus(size) && b <= Modulus(size)
    ensures (a + b) % Modulus(size) == if a + b < Modulus(size) then a + b else a + b - Modulus(size)
  {
  }

  lemma ModularOnce(b: nat, size: ValueSize)
    requires b < Modulus(size)
    ensures (b + Modulus(size)) % Modulus(size) == b
  {
  }

  lemma ParityCounts(v: u32)
    ensures EvenParity(v) <==> |BitManip.SetBits(v, 8)| % 2 == 0
  {
    BitManip.OnesAreTheSetBits(v, 8);
  }

  /** The flags a cmp leaves, in terms of the exact difference. */
  lemma CmpFlags(f: Flags, a: u32, b: u32, size: ValueSize)
    requires a < Modulus(size) && b < Modulus(size)
    ensures var d := (a as int - b as int) % Modulus(size);
            var g := SubWithFlags(f, a, b, size).1;
            && g.carry == (a < b) && g.zero == (a == b) && g.parity == EvenParity(d)
            && g.sign == (Signed(d, size) < 0)
            && g.overflow == (Signed(a, size) - Signed(b, size) != Signed(d, size))
            && ((g.sign != g.overflow) == (Signed(a, size) < Signed(b, size)))
            && (Signed(a, size) == Signed(b, size) <==> a == b)
  {
    ModularDifference(a, b, size);
    SubFlags(f, a, b, size);
    var m := Modulus(size);
    assert m == 2 * (m / 2);
    hide SubWithFlags, EvenParity, Modulus;
    var d := (a as int - b as int) % m;
    SmallMod(d, m);
    SignedDifference(a, b, d, m / 2);
  }

  lemma SubFlags(f: Flags, a: u32, b: u32, size: ValueSize)
    ensures var m := Modulus(size);
            var d := (a as int - b as int) % m;
            var g := SubWithFlags(f, a, b, size).1;
            && g.carry == (a < b) && g.zero == (d == 0) && g.parity == EvenParity(d) && g.sign == (d % m >= m / 2)
            && g.overflow == SignedOverflows(Signed(a, size) - Signed(b, size), size)
            && g.direction == f.direction
  {
    hide EvenParity, SignedOverflows, Signed, Modulus;
  }

  /** Two's complement numbers of modulus 2h: a difference overflows exactly when
      it is not the signed reading of the modular one, and then its sign is wrong. */
  lemma SignedDifference(a: nat, b: nat, d: nat, h: nat)
    requires a < 2 * h && b < 2 * h && d == if a >= b then a - b else a - b + 2 * h
    ensures var x, y, z := (if a < h then a else a - 2 * h), (if b < h then b else b - 2 * h), (if d < h then d else d - 2 * h);
            && ((x - y < -(h as int) || x - y >= h) <==> x - y != z)
            && ((z < 0) != (x - y != z) <==> x < y)
  {
  }

  /** After `cmp a, b` each of the sixteen codes holds exactly when its relation does. */
  lemma ConditionCodes(f: Flags, opcode: u8, a: u32, b: u32, size: ValueSize)
    requires a < Modulus(size) && b < Modulus(size)
    ensures CcMatches(opcode, SubWithFlags(f, a, b, size).1) <==> Relation(opcode % 16, a, b, size)
  {
    ParityCounts((a as int - b as int) % Modulus(size));
    CmpFlags(f, a, b, size);
    hide EvenParity, SubWithFlags, Signed, BitManip.SetBits, Modulus;
  }

  /** adc adds the carry to the destination first, and loses it when the
      destination is all ones: the carry out is that of the exact three-way sum
      if and only if that does not happen; the result always is the sum. */
  lemma AdcCarry(f: Flags, a: u32, b: u32, size: ValueSize)
    requires a < Modulus(size) && b < Modulus(size)
    ensures var (result, g) := AdcWithFlags(f, a, b, size);
            var sum := a as int + b as int + if f.carry then 1 else 0;
            && result == sum % Modulus(size)
            && ((g.carry <==> sum >= Modulus(size)) <==> !(f.carry && a == Modulus(size) - 1))
  {
    hide AddWithFlags;
    var c := if f.carry then 1 else 0;
    ModularSum(a, c, size);
    AddCarriesOut(f, CarryIn(f, a, size), b, size);
    if a + c < Modulus(size) {
      assert CarryIn(f, a, size) == a + c;
    } else {
      assert CarryIn(f, a, size) == 0 && a + b + c == b + Modulus(size);
      ModularOnce(b, size);
    }
  }

  lemma AddCarriesOut(f: Flags, a: u32, b: u32, size: ValueSize)
    ensures var (result, g) := AddWithFlags(f, a, b, size);
            result == (a as int + b as int) % Modulus(size) && (g.carry <==> a as int + b as int >= Modulus(size))
  {
    hide EvenParity, SignedOverflows, Signed, Modulus;
  }

  /** The failing case is real: 0xFF + 0 with the carry set. */
  lemma AdcLosesCarry(f: Flags)
    requires f.carry
    ensures AdcWithFlags(f, 0xFF, 0, SizeByte).0 == 0 && !AdcWithFlags(f, 0xFF, 0, SizeByte).1.carry
  {
  }
}

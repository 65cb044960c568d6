// What executing an instruction does to its operands, the flags and eip.

module Instructions {
  import opened Words
  import opened Errors
  import opened Structs
  import BitManip
  import opened FlagBits
  import Memory
  import opened VMState
  import opened Opcodes
  import opened Fetch
  import opened Arithmetic
  import opened Ops
  import opened Places
  import Compare
  import Rotate
  import Encoding

  /** The operand reads, sign-extended to this width, as this number. */
  predicate ReadsSigned(c: Cpu, loc: ArgLocation, size: ValueSize, n: nat) {
    var v := GetArg(c.regs, c.mem, loc);
    v.Ok? && IsWidth(size)
    && ((HasSize(v.value, size) && v.value.Number() == n)
        || (v.value.Byte? && size != SizeByte && n == Signed(v.value.b, SizeByte) % Modulus(size))
        || (v.value.Word? && size == SizeDword && n == Signed(v.value.w, SizeWord) % Modulus(size))
        || (v.value.NoValue? && size != SizeByte && n == 0))
  }

  lemma ReadsExact(c: Cpu, loc: ArgLocation, size: ValueSize, n: nat)
    requires IsWidth(size) && Reads(c, loc, size, n)
    ensures n < Modulus(size) && GetArg(c.regs, c.mem, loc) == Ok(Sized(n, size))
    ensures Exact(GetArg(c.regs, c.mem, loc).value, size) == Ok(n)
  {
    hide GetArg;
  }

  lemma ReadsExtended(c: Cpu, loc: ArgLocation, size: ValueSize, n: nat)
    requires ReadsSigned(c, loc, size, n)
    ensures n < Modulus(size) && GetArg(c.regs, c.mem, loc).Ok? && Extended(GetArg(c.regs, c.mem, loc).value, size) == Ok(n)
  {
    hide GetArg;
  }

  lemma SizedNumber(n: nat, size: ValueSize)
    requires IsWidth(size) && n < Modulus(size)
    ensures HasSize(Sized(n, size), size) && Sized(n, size).Number() == n && n % Modulus(size) == n
  {
    SmallMod(n, Modulus(size));
  }

  // ---------- cmp and the conditions ----------

  /** cmp a, b computes nothing but flags, and after it each condition code holds
      exactly when its relation holds between a and b. */
  lemma CmpDecides(c: Cpu, p: Slot, w: OpWidth, a: nat, b: nat)
    requires Reads(c, p.args[0].location, w.Size(p.sizeOverride), a)
    requires ReadsSigned(c, p.args[1].location, w.Size(p.sizeOverride), b)
    ensures var r := CpuOp(c, Alu(Cmp, w), p);
            && r.Done? && r.value == c.(flags := r.value.flags)
            && r.value.flags.direction == c.flags.direction
            && (forall opcode: u8 :: CcMatches(opcode, r.value.flags)
                                <==> Compare.Relation(opcode % 16, a, b, w.Size(p.sizeOverride)))
  {
    hide GetArg, Exact, Extended, SubWithFlags, CcMatches, Compare.Relation, Modulus, Reads, ReadsSigned;
    var size := w.Size(p.sizeOverride);
    ReadsExact(c, p.args[0].location, size, a);
    ReadsExtended(c, p.args[1].location, size, b);
    Compare.SubFlags(c.flags, a, b, size);
    forall opcode: u8
      ensures CcMatches(opcode, SubWithFlags(c.flags, a, b, size).1) <==> Compare.Relation(opcode % 16, a, b, size)
    {
      Compare.ConditionCodes(c.flags, opcode, a, b, size);
    }
  }

  // ---------- jumps ----------

  /** Where execution goes on after an instruction. */
  function After(c: Cpu, p: Slot): u32 {
    Wrap32(c.eip + p.eipSize)
  }

  /** Where a jump lands once the main loop has added the size: at the target,
      except that the size prefix cuts eip to 16 bits before that. */
  function LandsAt(target: int, p: Slot): u32 {
    if p.sizeOverride then Wrap32(Wrap32(target - p.eipSize as int) % 0x1_0000 + p.eipSize) else Wrap32(target)
  }

  /** A jump: eip is set so that execution goes on at the target, nothing else changes. */
  predicate JumpsTo(c: Cpu, p: Slot, r: CpuEffect<Cpu>, target: int) {
    r.Done? && r.value == c.(eip := r.value.eip) && After(r.value, p) == LandsAt(target, p)
  }

  /** Adding the size undoes what the jump functions subtract. */
  lemma LandsThere(x: int, p: Slot)
    ensures var eip := Wrap32(x - p.eipSize as int);
            Wrap32((if p.sizeOverride then eip % 0x1_0000 else eip) + p.eipSize) == LandsAt(x, p)
  {
    hide Wrap32;
    Encoding.WrapAfter(p.eipSize, x - p.eipSize as int);
  }

  lemma BaseOfTarget(eip: u32, size: u8, d: int)
    ensures JumpBase(eip, size, Wrap32(d)) == Wrap32(eip + size + d - size as int)
  {
    hide Wrap32;
    Encoding.WrapAfter(eip + size, d);
    Encoding.WrapAfter(Wrap32(d), eip + size);
    Encoding.WrapAfter(-(size as int), Wrap32(eip + size) + Wrap32(d));
    Encoding.WrapAfter(-(size as int), Wrap32(d) + (eip + size));
    Encoding.WrapAfter(eip + size - size as int, d);
  }

  lemma RelativeLanding(c: Cpu, p: Slot, v: SizedValue)
    requires GetArg(c.regs, c.mem, p.args[0].location) == Ok(v) && !v.Qword?
    ensures JumpsTo(c, p, JumpRelativeOp(c, p), After(c, p) + Encoding.SignedValue(v))
  {
    hide GetArg, Encoding.SignedValue, SizedValue.U32Sx, JumpBase, LandsAt, Wrap32;
    Encoding.SignExtended(v);
    var d := Encoding.SignedValue(v);
    BaseOfTarget(c.eip, p.eipSize, d);
    Encoding.WrapAfter(d, c.eip + p.eipSize);
    LandsThere(c.eip + p.eipSize + d, p);
    SameLanding(c.eip + p.eipSize + d, After(c, p) + d, p);
  }

  /** jmp rel goes to the next instruction plus the signed displacement. */
  lemma JumpsRelatively(c: Cpu, p: Slot, v: SizedValue)
    requires GetArg(c.regs, c.mem, p.args[0].location) == Ok(v) && !v.Qword?
    ensures JumpsTo(c, p, CpuOp(c, JumpRelative, p), After(c, p) + Encoding.SignedValue(v))
  {
    hide JumpsTo, JumpRelativeOp, GetArg;
    RelativeLanding(c, p, v);
  }

  lemma SameLanding(x: int, y: int, p: Slot)
    requires Wrap32(x) == Wrap32(y)
    ensures LandsAt(x, p) == LandsAt(y, p)
  {
    hide Wrap32;
    Encoding.WrapAfter(-(p.eipSize as int), x);
    Encoding.WrapAfter(-(p.eipSize as int), y);
  }

  /** jmp abs goes to the number its operand reads as. */
  lemma JumpsAbsolutely(c: Cpu, p: Slot, v: SizedValue)
    requires GetArg(c.regs, c.mem, p.args[0].location) == Ok(v) && !v.Qword?
    ensures JumpsTo(c, p, CpuOp(c, JumpAbsolute, p), v.Number())
  {
    hide GetArg, LandsAt;
    LandsThere(v.Number(), p);
  }

  /** A conditional jump is taken exactly when its condition code holds. */
  lemma JumpsIf(c: Cpu, p: Slot, v: SizedValue)
    requires GetArg(c.regs, c.mem, p.args[0].location) == Ok(v) && !v.Qword?
    ensures if CcMatches(p.opcode, c.flags) then JumpsTo(c, p, CpuOp(c, JumpIf, p), After(c, p) + Encoding.SignedValue(v))
            else CpuOp(c, JumpIf, p) == Done(c)
  {
    hide GetArg, CcMatches, JumpsTo, JumpRelativeOp;
    RelativeLanding(c, p, v);
  }

  /** jecxz is taken exactly when ECX is 0. */
  lemma JumpsIfEcxZero(c: Cpu, p: Slot, v: SizedValue)
    requires GetArg(c.regs, c.mem, p.args[0].location) == Ok(v) && !v.Qword?
    ensures if c.regs[ECX] == 0 then JumpsTo(c, p, CpuOp(c, JumpIfEcxZero, p), After(c, p) + Encoding.SignedValue(v))
            else CpuOp(c, JumpIfEcxZero, p) == Done(c)
  {
    hide GetArg, JumpsTo, JumpRelativeOp;
    RelativeLanding(c, p, v);
  }

  /** The cpu when the main loop has added the size. */
  function Advanced(c: Cpu, p: Slot): Cpu {
    c.(eip := After(c, p))
  }

  /** cmp a, b and then a conditional jump: execution goes on at the next
      instruction plus the signed displacement if the relation the condition code
      names holds between a and b, and at the next instruction otherwise. */
  lemma CmpThenJump(c: Cpu, p: Slot, q: Slot, w: OpWidth, a: nat, b: nat, v: SizedValue)
    requires Reads(c, p.args[0].location, w.Size(p.sizeOverride), a)
    requires ReadsSigned(c, p.args[1].location, w.Size(p.sizeOverride), b)
    requires q.args[0].location == Immediate(v) && !v.Qword? && !q.sizeOverride
    ensures CpuOp(c, Alu(Cmp, w), p).Done?
    ensures var t := Advanced(CpuOp(c, Alu(Cmp, w), p).value, p);
            var r := CpuOp(t, JumpIf, q);
            var next := c.eip + p.eipSize + q.eipSize;
            && r.Done? && r.value == t.(eip := r.value.eip) && t == c.(eip := t.eip, flags := t.flags)
            && Advanced(r.value, q).eip ==
                 Wrap32(if Compare.Relation(q.opcode % 16, a, b, w.Size(p.sizeOverride))
                        then next + Encoding.SignedValue(v) else next)
  {
    hide CpuOp, Reads, ReadsSigned, CcMatches, Compare.Relation, Encoding.SignedValue, Wrap32;
    CmpDecides(c, p, w, a, b);
    var t := Advanced(CpuOp(c, Alu(Cmp, w), p).value, p);
    JumpsIf(t, q, v);
    Encoding.WrapAfter(q.eipSize, c.eip + p.eipSize);
    Encoding.WrapAfter(Encoding.SignedValue(v), t.eip + q.eipSize);
    Encoding.WrapAfter(q.eipSize + Encoding.SignedValue(v), c.eip + p.eipSize);
  }

  /** A call goes where the jump would, with the return address on the stack. */
  lemma CallsRelatively(c: Cpu, p: Slot, v: SizedValue)
    requires p.args[0].location == Immediate(v) && !v.Qword? && p.args[1].location == NoArg
    requires Push(c, Dword(After(c, p)), p.sizeOverride).Done?
    ensures var t := Push(c, Dword(After(c, p)), p.sizeOverride).value;
            JumpsTo(t, p, CpuOp(c, CallRelative, p), After(c, p) + Encoding.SignedValue(v))
  {
    hide JumpsTo, JumpRelativeOp, Push, Encoding.SignedValue, SizedValue.U32Zx;
    var t := Push(c, Dword(After(c, p)), p.sizeOverride).value;
    HasNumber(v);
    assert CpuOp(c, CallRelative, p) == JumpRelativeOp(t, p);
    RelativeLanding(t, p, v);
  }

  lemma HasNumber(v: SizedValue)
    requires !v.Qword?
    ensures v.U32Zx() == Ok(v.Number())
  {
  }

  /** The target of an absolute call is read again when the return address is on
      the stack. */
  lemma CallsAbsolutely(c: Cpu, p: Slot, v: SizedValue, v': SizedValue)
    requires GetArg(c.regs, c.mem, p.args[0].location) == Ok(v) && !v.Qword? && p.args[1].location == NoArg
    requires Push(c, Dword(After(c, p)), p.sizeOverride).Done?
    requires var t := Push(c, Dword(After(c, p)), p.sizeOverride).value;
             GetArg(t.regs, t.mem, p.args[0].location) == Ok(v') && !v'.Qword?
    ensures var t := Push(c, Dword(After(c, p)), p.sizeOverride).value;
            JumpsTo(t, p, CpuOp(c, CallAbsolute, p), v'.Number())
  {
    hide JumpsTo, JumpAbsoluteOp, Push, GetArg, SizedValue.U32Zx, SizedValue.Number;
    var t := Push(c, Dword(After(c, p)), p.sizeOverride).value;
    HasNumber(v);
    assert CpuOp(c, CallAbsolute, p) == JumpAbsoluteOp(t, p);
    JumpsAbsolutely(t, p, v');
  }

  lemma ReturnLands(c: Cpu, p: Slot, v: SizedValue, release: u16, n: nat)
    requires GetArg(c.regs, c.mem, p.args[0].location) == Ok(v) && v.U16Zx() == Ok(release)
    requires n == (if p.sizeOverride then 2 else 4) && Inside(c.mem, c.regs[ESP], n)
    ensures var above := c.(regs := c.regs[ESP := Wrap32(c.regs[ESP] + n + release)]);
            JumpsTo(above, p, RetOp(c, p), LittleEndian(BytesAt(c.mem, c.regs[ESP], n)))
  {
    hide GetArg, Memory.GetMem, LandsAt, Inside, LittleEndian, BytesAt, Wrap32, SizedValue.U16Zx;
    LoadIsLittleEndian(c.mem, c.regs[ESP], if p.sizeOverride then SizeWord else SizeDword);
    LandsThere(LittleEndian(BytesAt(c.mem, c.regs[ESP], n)), p);
    Encoding.WrapAfter(release, c.regs[ESP] as int + n);
  }

  /** ret goes where the word or dword on top of the stack says; ESP moves up over
      it and then over the bytes to release. */
  lemma ReturnsTo(c: Cpu, p: Slot, v: SizedValue, release: u16)
    requires GetArg(c.regs, c.mem, p.args[0].location) == Ok(v) && v.U16Zx() == Ok(release)
    requires Inside(c.mem, c.regs[ESP], if p.sizeOverride then 2 else 4)
    ensures var n := if p.sizeOverride then 2 else 4;
            var above := c.(regs := c.regs[ESP := Wrap32(c.regs[ESP] + n + release)]);
            JumpsTo(above, p, CpuOp(c, Ret, p), LittleEndian(BytesAt(c.mem, c.regs[ESP], n)))
  {
    hide GetArg, Inside, LittleEndian, BytesAt, Wrap32, SizedValue.U16Zx, RetOp, JumpsTo;
    ReturnLands(c, p, v, release, if p.sizeOverride then 2 else 4);
  }

  /** int hands the number in its operand to the hypervisor. */
  lemma Interrupts(hv: Hypervisor, p: Slot, s: State, n: u8)
    requires p.op == Interrupt && GetArg(s.cpu.regs, s.cpu.mem, p.args[0].location) == Ok(Byte(n))
    ensures Exec(hv, p, s) == hv(s, n)
  {
    hide GetArg, RepLoop, CpuOp;
  }

  // ---------- arithmetic ----------

  /** The six flags after arithmetic with this result; the other three stay. */
  ghost predicate FlagsOf(f: Flags, g: Flags, result: nat, carry: bool, overflow: bool, adjust: bool, size: ValueSize) {
    g == f.(carry := carry, overflow := overflow, adjust := adjust, zero := result == 0,
            sign := Signed(result, size) < 0, parity := |BitManip.SetBits(result, 8)| % 2 == 0)
  }

  /** When the destination can be stored to, it reads as the result and nothing
      but it and the flags has changed; otherwise the instruction fails. */
  ghost predicate Results(c: Cpu, p: Slot, size: ValueSize, r: CpuEffect<Cpu>, result: nat) {
    var loc := p.args[0].location;
    && IsPlace(c.regs, loc, size) && (r.Done? <==> CanStore(c, loc, size))
    && (r.Done? ==> Reads(r.value, loc, size, result) && OnlyPlaceChanged(c, r.value, loc))
  }

  lemma StoresResult(c: Cpu, p: Slot, size: ValueSize, flags: Flags, result: nat)
    requires IsPlace(c.regs, p.args[0].location, size) && result < Modulus(size)
    ensures var r := SetArg(c.(flags := flags), p.args[0].location, Sized(result, size));
            Results(c, p, size, r, result) && (r.Done? ==> r.value.flags == flags)
  {
    hide Reads, OnlyRegisterChanged, OnlyBytesChanged, SetArg, Inside, Modulus, Sized;
    SizedNumber(result, size);
    StoreThenRead(c.(flags := flags), p.args[0].location, Sized(result, size), size);
  }

  /** Two's complement numbers of modulus 2h: a sum overflows exactly when it is
      not the signed reading of the modular one. */
  lemma SignedSum(a: nat, b: nat, d: nat, h: nat)
    requires a < 2 * h && b < 2 * h && d == if a + b < 2 * h then a + b else a + b - 2 * h
    ensures var x, y, z := (if a < h then a else a - 2 * h), (if b < h then b else b - 2 * h), (if d < h then d else d - 2 * h);
            (x + y < -(h as int) || x + y >= h) <==> x + y != z
  {
  }

  lemma SetsFlags(f: Flags, result: u32, source: u32, destination: u32, overflow: bool, carry: bool, adjust: AdjustType,
                  size: ValueSize)
    requires IsWidth(size) && result < Modulus(size) && !adjust.Untouched?
    ensures FlagsOf(f, GetFlags(f, result, source, destination, overflow, carry, adjust, size), result, carry, overflow,
                    if adjust.Inc? then destination % 16 + source % 16 > 15 else destination % 16 < source % 16, size)
  {
    hide EvenParity, BitManip.SetBits;
    Compare.ParityCounts(result);
    SmallMod(result, Modulus(size));
  }

  /** The sum and the difference of numbers of a width, in that width. */
  function Plus(a: nat, b: nat, size: ValueSize): (n: nat)
    ensures n < Modulus(size)
  {
    (a + b) % Modulus(size)
  }

  function Minus(a: nat, b: nat, size: ValueSize): (n: nat)
    ensures n < Modulus(size)
  {
    (a - b) % Modulus(size)
  }

  lemma SumOverflows(a: nat, b: nat, size: ValueSize)
    requires a < Modulus(size) && b < Modulus(size)
    ensures SignedOverflows(Signed(a, size) + Signed(b, size), size)
       <==> Signed(a, size) + Signed(b, size) != Signed(Plus(a, b, size), size)
  {
    var m := Modulus(size);
    assert m == 2 * (m / 2);
    Compare.ModularSum(a, b, size);
    var d := Plus(a, b, size);
    hide Plus, Modulus;
    SignedSum(a, b, d, m / 2);
  }

  lemma DifferenceOverflows(a: nat, b: nat, size: ValueSize)
    requires a < Modulus(size) && b < Modulus(size)
    ensures SignedOverflows(Signed(a, size) - Signed(b, size), size)
       <==> Signed(a, size) - Signed(b, size) != Signed(Minus(a, b, size), size)
  {
    var m := Modulus(size);
    assert m == 2 * (m / 2);
    Compare.ModularDifference(a, b, size);
    var d := Minus(a, b, size);
    hide Minus, Modulus;
    Compare.SignedDifference(a, b, d, m / 2);
  }

  lemma SumFlags(f: Flags, a: u32, b: u32, size: ValueSize)
    requires IsWidth(size) && a < Modulus(size) && b < Modulus(size)
    ensures var (result, g) := AddWithFlags(f, a, b, size);
            && result == Plus(a, b, size)
            && FlagsOf(f, g, result, a as int + b as int >= Modulus(size),
                       Signed(a, size) + Signed(b, size) != Signed(result, size), a % 16 + b % 16 > 15, size)
  {
    hide GetFlags, FlagsOf, Modulus, Signed, SignedOverflows;
    SumOverflows(a, b, size);
    SetsFlags(f, AddWithFlags(f, a, b, size).0, b, a, SignedOverflows(Signed(a, size) + Signed(b, size), size),
              a as int + b as int >= Modulus(size), Inc, size);
  }

  lemma DifferenceFlags(f: Flags, a: u32, b: u32, size: ValueSize)
    requires IsWidth(size) && a < Modulus(size) && b < Modulus(size)
    ensures var (result, g) := SubWithFlags(f, a, b, size);
            && result == Minus(a, b, size)
            && FlagsOf(f, g, result, a < b, Signed(a, size) - Signed(b, size) != Signed(result, size), a % 16 < b % 16, size)
  {
    hide GetFlags, FlagsOf, Modulus, Signed, SignedOverflows;
    DifferenceOverflows(a, b, size);
    SetsFlags(f, SubWithFlags(f, a, b, size).0, b, a, SignedOverflows(Signed(a, size) - Signed(b, size), size), a < b, Dec, size);
  }

  /** add: the destination becomes the sum, with its flags. */
  lemma Adds(c: Cpu, p: Slot, w: OpWidth, a: nat, b: nat)
    requires IsPlace(c.regs, p.args[0].location, w.Size(p.sizeOverride))
    requires Reads(c, p.args[0].location, w.Size(p.sizeOverride), a)
    requires ReadsSigned(c, p.args[1].location, w.Size(p.sizeOverride), b)
    ensures var r := CpuOp(c, Alu(Add, w), p);
            var size := w.Size(p.sizeOverride);
            var sum := Plus(a, b, size);
            && Results(c, p, size, r, sum)
            && (r.Done? ==> FlagsOf(c.flags, r.value.flags, sum, a + b >= Modulus(size),
                                    Signed(a, size) + Signed(b, size) != Signed(sum, size), a % 16 + b % 16 > 15, size))
  {
    hide GetArg, SetArg, Exact, Extended, AddWithFlags, FlagsOf, Results, Plus, Modulus, Reads, ReadsSigned, Signed, IsPlace;
    var size := w.Size(p.sizeOverride);
    ReadsExact(c, p.args[0].location, size, a);
    ReadsExtended(c, p.args[1].location, size, b);
    SumFlags(c.flags, a, b, size);
    StoresResult(c, p, size, AddWithFlags(c.flags, a, b, size).1, Plus(a, b, size));
  }

  /** sub: the destination becomes the difference, with the flags of cmp. */
  lemma Subtracts(c: Cpu, p: Slot, w: OpWidth, a: nat, b: nat)
    requires IsPlace(c.regs, p.args[0].location, w.Size(p.sizeOverride))
    requires Reads(c, p.args[0].location, w.Size(p.sizeOverride), a)
    requires ReadsSigned(c, p.args[1].location, w.Size(p.sizeOverride), b)
    ensures var r := CpuOp(c, Alu(Sub, w), p);
            var size := w.Size(p.sizeOverride);
            var difference := Minus(a, b, size);
            && Results(c, p, size, r, difference)
            && (r.Done? ==> FlagsOf(c.flags, r.value.flags, difference, a < b,
                                    Signed(a, size) - Signed(b, size) != Signed(difference, size), a % 16 < b % 16, size))
  {
    hide GetArg, SetArg, Exact, Extended, SubWithFlags, FlagsOf, Results, Minus, Modulus, Reads, ReadsSigned, Signed, IsPlace;
    var size := w.Size(p.sizeOverride);
    ReadsExact(c, p.args[0].location, size, a);
    ReadsExtended(c, p.args[1].location, size, b);
    DifferenceFlags(c.flags, a, b, size);
    StoresResult(c, p, size, SubWithFlags(c.flags, a, b, size).1, Minus(a, b, size));
  }

  /** The place of the destination is the same after a store to it. */
  lemma PlaceStays(c: Cpu, t: Cpu, loc: ArgLocation, size: ValueSize)
    requires IsPlace(c.regs, loc, size) && OnlyPlaceChanged(c, t, loc)
    ensures IsPlace(t.regs, loc, size) && (CanStore(t, loc, size) <==> CanStore(c, loc, size))
  {
    hide OnlyRegisterChanged;
  }

  lemma SamePlace(c: Cpu, loc: ArgLocation, flags: Flags)
    ensures OnlyPlaceChanged(c, c.(flags := flags), loc)
  {
  }

  /** adc is a store of destination + CF and then add. */
  lemma AdcIsTwoSteps(c: Cpu, p: Slot, w: OpWidth, a: nat)
    requires IsPlace(c.regs, p.args[0].location, w.Size(p.sizeOverride))
    requires Reads(c, p.args[0].location, w.Size(p.sizeOverride), a)
    ensures var size := w.Size(p.sizeOverride);
            var first := Plus(a, CarryBit(c.flags), size);
            var t := SetArg(c, p.args[0].location, Sized(first, size));
            && CpuOp(c, Alu(Adc, w), p) == (if t.Done? then CpuOp(t.value, Alu(Add, w), p) else t)
            && Results(c, p, size, t, first) && (t.Done? ==> t.value.flags == c.flags)
  {
    var size := w.Size(p.sizeOverride);
    var first := Plus(a, CarryBit(c.flags), size);
    ReadsExact(c, p.args[0].location, size, a);
    CarriesIn(c.flags, a, size);
    hide GetArg, SetArg, Exact, Modulus, Plus, CarryIn, AddOp, Results, Reads, IsPlace, Sized;
    StoresResult(c, p, size, c.flags, first);
    assert c.(flags := c.flags) == c;
    assert CpuOp(c, Alu(Adc, w), p) == AdcOp(c, p, size);
  }

  lemma CarriesIn(f: Flags, a: nat, size: ValueSize)
    requires a < Modulus(size)
    ensures a < 0x1_0000_0000 && CarryIn(f, a, size) == Plus(a, CarryBit(f), size)
  {
  }

  /** adc stores destination + CF first and then adds: the result is the sum of
      the three, if the source is no part of the destination. */
  lemma AddsWithCarry(c: Cpu, p: Slot, w: OpWidth, a: nat, b: nat)
    requires IsPlace(c.regs, p.args[0].location, w.Size(p.sizeOverride))
    requires Reads(c, p.args[0].location, w.Size(p.sizeOverride), a)
    requires forall t :: OnlyPlaceChanged(c, t, p.args[0].location) ==>
                           ReadsSigned(t, p.args[1].location, w.Size(p.sizeOverride), b)
    ensures var r := CpuOp(c, Alu(Adc, w), p);
            var size := w.Size(p.sizeOverride);
            var first := Plus(a, CarryBit(c.flags), size);
            var sum := Plus(a + b, CarryBit(c.flags), size);
            && Results(c, p, size, r, sum)
            && (r.Done? ==> FlagsOf(c.flags, r.value.flags, sum, first + b >= Modulus(size),
                                    Signed(first, size) + Signed(b, size) != Signed(sum, size), first % 16 + b % 16 > 15, size))
  {
    var size := w.Size(p.sizeOverride);
    var loc := p.args[0].location;
    var first := Plus(a, CarryBit(c.flags), size);
    AdcIsTwoSteps(c, p, w, a);
    hide CpuOp, FlagsOf, Plus, Modulus, Reads, ReadsSigned, Signed, IsPlace, CanStore, OnlyPlaceChanged;
    var t := SetArg(c, loc, Sized(first, size));
    if t.Done? {
      PlaceStays(c, t.value, loc, size);
      Adds(t.value, p, w, first, b);
      PlusTwice(a, CarryBit(c.flags), b, size);
      var r := CpuOp(t.value, Alu(Add, w), p);
      if r.Done? { OnlyPlaceTwice(c, t.value, r.value, loc); }
    }
  }

  lemma PlusTwice(a: nat, x: nat, b: nat, size: ValueSize)
    ensures Plus(Plus(a, x, size), b, size) == Plus(a + b, x, size)
  {
    SameSum(a, x, b, Modulus(size));
  }

  lemma SameSum(a: nat, x: nat, b: nat, m: nat)
    requires m > 0
    ensures ((a + x) % m + b) % m == (a + b + x) % m
  {
    var q, r := (a + x) / m, (a + x) % m;
    assert a + b + x == q * m + (r + b);
    var q', r' := (r + b) / m, (r + b) % m;
    assert a + b + x == (q + q') * m + r' by { Rotate.Distribute(q, q', m); }
    Rotate.DivMod(q + q', r', m);
  }

  /** Added to itself, a destination takes the carry twice. */
  lemma AdcOfItself(c: Cpu, p: Slot, w: OpWidth, a: nat)
    requires IsPlace(c.regs, p.args[0].location, w.Size(p.sizeOverride)) && p.args[1].location == p.args[0].location
    requires Reads(c, p.args[0].location, w.Size(p.sizeOverride), a)
    ensures var size := w.Size(p.sizeOverride);
            var first := Plus(a, CarryBit(c.flags), size);
            Results(c, p, size, CpuOp(c, Alu(Adc, w), p), Plus(first, first, size))
  {
    var size := w.Size(p.sizeOverride);
    var loc := p.args[0].location;
    var first := Plus(a, CarryBit(c.flags), size);
    AdcIsTwoSteps(c, p, w, a);
    var t := SetArg(c, loc, Sized(first, size));
    if t.Done? {
      assert ReadsSigned(t.value, p.args[1].location, size, first) by { hide GetArg, SetArg, CpuOp, OnlyPlaceChanged; }
      hide CpuOp, FlagsOf, Plus, Modulus, Reads, ReadsSigned, Signed, IsPlace, CanStore, OnlyPlaceChanged;
      PlaceStays(c, t.value, loc, size);
      Adds(t.value, p, w, first, first);
      var r := CpuOp(t.value, Alu(Add, w), p);
      if r.Done? { OnlyPlaceTwice(c, t.value, r.value, loc); }
    }
  }

  // ---------- rotates ----------

  /** The count that is turned by: five bits of the operand, reduced by the width. */
  function Turned(n: nat, size: ValueSize): nat {
    n % 32 % Bits(size)
  }

  /** A rotate that succeeds leaves a destination that reads as `result`, and
      changes nothing else but carry and overflow. */
  ghost predicate Rotated(c: Cpu, p: Slot, size: ValueSize, r: CpuEffect<Cpu>, result: nat) {
    && Results(c, p, size, r, result)
    && (r.Done? ==> r.value.flags == c.flags.(carry := r.value.flags.carry, overflow := r.value.flags.overflow))
  }

  /** What the rotates store, and with which flags. */
  function Rolled(f: Flags, v: u32, k: nat, left: bool, size: ValueSize): (u32, Flags)
    requires 0 < k < Bits(size)
  {
    if left then RclWithFlags(f, v, k, size) else RcrWithFlags(f, v, k, size)
  }

  lemma SameCount(n: u32, size: ValueSize)
    ensures RotateCount(n, size) == Turned(n, size)
  {
  }

  lemma RotateStores(c: Cpu, p: Slot, left: bool, size: ValueSize, v: nat, n: nat)
    requires IsPlace(c.regs, p.args[0].location, size)
    requires Reads(c, p.args[0].location, size, v) && ReadsSigned(c, p.args[1].location, size, n)
    ensures v < Modulus(size) && v < 0x1_0000_0000
    ensures var r := RotateOp(c, p, left, size);
            if Turned(n, size) == 0 then r == Done(c)
            else
              var (x, g) := Rolled(c.flags, v, Turned(n, size), left, size);
              x < Modulus(size) && Rotated(c, p, size, r, x) && (r.Done? ==> r.value.flags == g)
  {
    ReadsExact(c, p.args[0].location, size, v);
    ReadsExtended(c, p.args[1].location, size, n);
    var k := Turned(n, size);
    SameCount(n, size);
    hide GetArg, SetArg, Exact, Extended, Reads, ReadsSigned, IsPlace, Results, Modulus, Turned, RotateCount, Bits, Sized;
    hide RclWithFlags, RcrWithFlags, Rotate.RingLeftBy, Rotate.Ring;
    if k > 0 {
      Rotate.RclTurnsRing(c.flags, v, k, size);
      Rotate.RcrTurnsBack(c.flags, v, k, size);
      OnlyCarryAndOverflow(c.flags, v, k, size);
      var (x, g) := Rolled(c.flags, v, k, left, size);
      StoresResult(c, p, size, g, x);
    }
  }

  /** rcl turns the ring of CF and destination to the left by the count. */
  lemma RotatesLeft(c: Cpu, p: Slot, w: OpWidth, v: nat, n: nat) returns (result: nat)
    requires IsPlace(c.regs, p.args[0].location, w.Size(p.sizeOverride))
    requires Reads(c, p.args[0].location, w.Size(p.sizeOverride), v)
    requires ReadsSigned(c, p.args[1].location, w.Size(p.sizeOverride), n)
    ensures var r := CpuOp(c, Rcl(w), p);
            var size := w.Size(p.sizeOverride);
            if Turned(n, size) == 0 then r == Done(c) && result == v
            else
              && Rotated(c, p, size, r, result) && result < Modulus(size)
              && (r.Done? ==>
                    Rotate.Ring(result, r.value.flags)
                    == Rotate.RingLeftBy(Rotate.Ring(v, c.flags), Bits(size), Turned(n, size)))
  {
    hide RotateOp, RclWithFlags, RcrWithFlags, Rotate.RingLeftBy, Reads, ReadsSigned, IsPlace, Results, Modulus;
    var size := w.Size(p.sizeOverride);
    RotateStores(c, p, true, size, v, n);
    result := v;
    if Turned(n, size) > 0 {
      Rotate.RclTurnsRing(c.flags, v, Turned(n, size), size);
      result := Rolled(c.flags, v, Turned(n, size), true, size).0;
    }
  }

  lemma OnlyCarryAndOverflow(f: Flags, v: u32, k: nat, size: ValueSize)
    requires 0 < k < Bits(size)
    ensures var g := RclWithFlags(f, v, k, size).1; g == f.(carry := g.carry, overflow := g.overflow)
    ensures var g := RcrWithFlags(f, v, k, size).1; g == f.(carry := g.carry, overflow := g.overflow)
  {
    hide RclBits, RcrBits, BitManip.GetBit;
  }

  /** rcr turns it to the right: turned left by the count, what it leaves is what
      it found. */
  lemma RotatesRight(c: Cpu, p: Slot, w: OpWidth, v: nat, n: nat) returns (result: nat)
    requires IsPlace(c.regs, p.args[0].location, w.Size(p.sizeOverride))
    requires Reads(c, p.args[0].location, w.Size(p.sizeOverride), v)
    requires ReadsSigned(c, p.args[1].location, w.Size(p.sizeOverride), n)
    ensures var r := CpuOp(c, Rcr(w), p);
            var size := w.Size(p.sizeOverride);
            if Turned(n, size) == 0 then r == Done(c) && result == v
            else
              && Rotated(c, p, size, r, result) && result < Modulus(size)
              && (r.Done? ==>
                    Rotate.RingLeftBy(Rotate.Ring(result, r.value.flags), Bits(size), Turned(n, size))
                    == Rotate.Ring(v, c.flags))
  {
    hide RotateOp, RclWithFlags, RcrWithFlags, Rotate.RingLeftBy, Reads, ReadsSigned, IsPlace, Results, Modulus;
    var size := w.Size(p.sizeOverride);
    RotateStores(c, p, false, size, v, n);
    result := v;
    if Turned(n, size) > 0 {
      Rotate.RcrTurnsBack(c.flags, v, Turned(n, size), size);
      result := Rolled(c.flags, v, Turned(n, size), false, size).0;
    }
  }

  /** rcl and then rcr of the same place by the same count leave everything as it
      was but the overflow flag. */
  lemma RotatesThereAndBack(c: Cpu, p: Slot, q: Slot, w: OpWidth, v: nat, n: nat)
    requires IsPlace(c.regs, p.args[0].location, w.Size(p.sizeOverride))
    requires Reads(c, p.args[0].location, w.Size(p.sizeOverride), v)
    requires ReadsSigned(c, p.args[1].location, w.Size(p.sizeOverride), n)
    requires q.args == p.args && q.sizeOverride == p.sizeOverride && CpuOp(c, Rcl(w), p).Done?
    requires ReadsSigned(CpuOp(c, Rcl(w), p).value, p.args[1].location, w.Size(p.sizeOverride), n)
    ensures var r := CpuOp(CpuOp(c, Rcl(w), p).value, Rcr(w), q);
            r.Done? && r.value == c.(flags := c.flags.(overflow := r.value.flags.overflow))
  {
    hide CpuOp, Reads, ReadsSigned, IsPlace, CanStore, OnlyPlaceChanged, Rotate.RingLeftBy, BitManip.Pow2, Modulus;
    var size := w.Size(p.sizeOverride);
    var loc := p.args[0].location;
    var t := CpuOp(c, Rcl(w), p).value;
    var x := RotatesLeft(c, p, w, v, n);
    if Turned(n, size) == 0 {
      var y := RotatesRight(t, q, w, v, n);
      assert c.flags.(overflow := c.flags.overflow) == c.flags;
    } else {
      PlaceStays(c, t, loc, size);
      var y := RotatesRight(t, q, w, x, n);
      var u := CpuOp(t, Rcr(w), q).value;
      ReadsExact(c, loc, size, v);
      Rotate.SizesArePowers(size);
      Rotate.TurnIsInjective(Rotate.Ring(y, u.flags), Rotate.Ring(v, c.flags), Bits(size), Turned(n, size));
      assert y == v && u.flags.carry == c.flags.carry;
      OnlyPlaceTwice(c, t, u, loc);
      NothingChanged(c, u, loc, size, v);
    }
  }
}

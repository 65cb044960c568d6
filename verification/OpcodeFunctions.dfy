// The opcode functions: methods that change the virtual machine in place, each
// proved against its meaning on values.

module OpcodeFunctions {
  import opened Words
  import opened Errors
  import opened Structs
  import opened BitManip
  import opened FlagBits
  import opened VMState
  import opened Opcodes
  import opened Fetch
  import opened Arithmetic
  import opened Ops
  import opened VirtualMachine

  // ---------- moves and the stack ----------

  method Mov(vm: VM, p: Slot) returns (r: Result<()>)
    requires vm.Valid()
    modifies vm.regs, vm.memory
    ensures vm.Ends(MovOp(old(vm.Core()), p), r)
  {
    hide VMState.GetArg, VMState.SetArg;
    var v :- vm.GetArg(p.args[1].location);
    r := vm.SetArg(p.args[0].location, v);
  }

  method Lea(vm: VM, p: Slot) returns (r: Result<()>)
    requires vm.Valid()
    modifies vm.regs, vm.memory
    ensures vm.Ends(LeaOp(old(vm.Core()), p), r)
  {
    hide VMState.GetArgLea, VMState.SetArg;
    var address :- vm.GetArgLea(p.args[1].location);
    if p.sizeOverride {
      r := vm.SetArg(p.args[0].location, Word(address % 0x1_0000));
    } else {
      r := vm.SetArg(p.args[0].location, Dword(address));
    }
  }

  method PushOne(vm: VM, p: Slot) returns (r: Result<()>)
    requires vm.Valid()
    modifies vm.regs, vm.memory
    ensures vm.Ends(PushOp(old(vm.Core()), p), r)
  {
    hide VMState.GetArg, Push;
    var v :- vm.GetArg(p.args[0].location);
    r := vm.PushStack(v, p);
  }

  method PopOne(vm: VM, p: Slot) returns (r: Result<()>)
    requires vm.Valid()
    modifies vm.regs, vm.memory
    ensures vm.Ends(PopOp(old(vm.Core()), p), r)
  {
    hide Pop, VMState.SetArg;
    var v :- vm.PopStack(if p.sizeOverride then SizeWord else SizeDword);
    r := vm.SetArg(p.args[0].location, v);
  }

  method Pusha(vm: VM, p: Slot) returns (r: Result<()>)
    requires vm.Valid()
    modifies vm.regs, vm.memory
    ensures vm.Ends(PushAllOp(old(vm.Core()), p.sizeOverride), r)
  {
    hide Push, VMState.GetReg;
    var size := if p.sizeOverride then SizeWord else SizeDword;
    var esp := vm.GetReg(ESP, size);
    var _ :- vm.PushStack(vm.GetReg(EAX, size), p);
    var _ :- vm.PushStack(vm.GetReg(ECX, size), p);
    var _ :- vm.PushStack(vm.GetReg(EDX, size), p);
    var _ :- vm.PushStack(vm.GetReg(EBX, size), p);
    var _ :- vm.PushStack(esp, p);
    var _ :- vm.PushStack(vm.GetReg(EBP, size), p);
    var _ :- vm.PushStack(vm.GetReg(ESI, size), p);
    r := vm.PushStack(vm.GetReg(EDI, size), p);
  }

  method Popa(vm: VM, p: Slot) returns (r: Result<()>)
    requires vm.Valid()
    modifies vm.regs
    ensures vm.Ends(PopAllOp(old(vm.Core()), p.sizeOverride), r)
  {
    hide Pop, VMState.SetReg;
    var size := if p.sizeOverride then SizeWord else SizeDword;
    var edi :- vm.PopStack(size);
    var esi :- vm.PopStack(size);
    var ebp :- vm.PopStack(size);
    var _ :- vm.PopStack(size);
    var ebx :- vm.PopStack(size);
    var edx :- vm.PopStack(size);
    var ecx :- vm.PopStack(size);
    var eax :- vm.PopStack(size);
    vm.SetReg(EDI, edi);
    vm.SetReg(ESI, esi);
    vm.SetReg(EBP, ebp);
    vm.SetReg(EBX, ebx);
    vm.SetReg(EDX, edx);
    vm.SetReg(ECX, ecx);
    vm.SetReg(EAX, eax);
    return Ok(());
  }

  method Pushf(vm: VM, p: Slot) returns (r: Result<()>)
    requires vm.Valid()
    modifies vm.regs, vm.memory
    ensures vm.Ends(PushFlagsOp(old(vm.Core()), p), r)
  {
    hide Push, Serialize;
    var flagInt := vm.flags.SerializeFlagStorage();
    r := vm.PushStack(Dword(flagInt), p);
  }

  method Popf(vm: VM, p: Slot) returns (r: Result<()>)
    requires vm.Valid()
    modifies vm.regs, vm.flags
    ensures vm.Ends(PopFlagsOp(old(vm.Core())), r)
  {
    hide Pop, Deserialize;
    var flagResult :- vm.PopStack(SizeDword);
    var flagInt :- flagResult.U32Exact();
    vm.flags.DeserializeFlagStorage(flagInt);
    return Ok(());
  }

  // ---------- arithmetic ----------

  method SetSign(vm: VM, result: u32, size: ValueSize)
    modifies vm.flags
    ensures vm.flags.Value() == old(vm.flags.Value()).(sign := result % Modulus(size) >= Modulus(size) / 2)
  {
    match size {
      case SizeByte => vm.flags.CalculateSign8(result % 0x100);
      case SizeWord => vm.flags.CalculateSign16(result % 0x1_0000);
      case _ => vm.flags.CalculateSign32(result);
    }
  }

  /** get_flags */
  method SetFlags(vm: VM, result: u32, source: u32, destination: u32, overflow: bool, carry: bool,
                  adjust: AdjustType, size: ValueSize)
    modifies vm.flags
    ensures vm.flags.Value() == GetFlags(old(vm.flags.Value()), result, source, destination, overflow, carry, adjust, size)
  {
    hide EvenParity, Modulus;
    vm.flags.overflow := overflow;
    vm.flags.carry := carry;
    vm.flags.CalculateZero(result);
    vm.flags.CalculateParity(result);
    match adjust {
      case Dec => vm.flags.adjust := (destination % 16) as int - (source % 16) as int < 0;
      case Inc => vm.flags.adjust := destination % 16 + source % 16 > 15;
      case Untouched =>
    }
    SetSign(vm, result, size);
  }

  /** The sum and its flags. */
  method Sum(vm: VM, base: u32, adder: u32, size: ValueSize) returns (result: u32)
    modifies vm.flags
    ensures (result, vm.flags.Value()) == AddWithFlags(old(vm.flags.Value()), base, adder, size)
    ensures result < Modulus(size)
  {
    hide GetFlags, SignedOverflows, Signed;
    result := (base as int + adder as int) % Modulus(size);
    var carry := base as int + adder as int >= Modulus(size);
    var overflow := SignedOverflows(Signed(base, size) + Signed(adder, size), size);
    SetFlags(vm, result, adder, base, overflow, carry, Inc, size);
  }

  /** The difference and its flags. */
  method Difference(vm: VM, base: u32, subt: u32, size: ValueSize) returns (result: u32)
    modifies vm.flags
    ensures (result, vm.flags.Value()) == SubWithFlags(old(vm.flags.Value()), base, subt, size)
    ensures result < Modulus(size)
    ensures vm.flags.direction == old(vm.flags.direction)
  {
    hide SignedOverflows, Signed, EvenParity;
    result := (base as int - subt as int) % Modulus(size);
    var carry := base < subt;
    var overflow := SignedOverflows(Signed(base, size) - Signed(subt, size), size);
    SetFlags(vm, result, subt, base, overflow, carry, Dec, size);
  }

  method AddTo(vm: VM, p: Slot, size: ValueSize) returns (r: Result<()>)
    requires vm.Valid()
    modifies vm.regs, vm.memory, vm.flags
    ensures vm.Ends(AddOp(old(vm.Core()), p, size), r)
  {
    hide VMState.GetArg, VMState.SetArg, AddWithFlags;
    var a :- vm.GetArg(p.args[0].location);
    var base :- Exact(a, size);
    var b :- vm.GetArg(p.args[1].location);
    var adder :- Extended(b, size);
    var result := Sum(vm, base, adder, size);
    r := vm.SetArg(p.args[0].location, Sized(result, size));
  }

  method AddWithCarry(vm: VM, p: Slot, size: ValueSize) returns (r: Result<()>)
    requires vm.Valid()
    modifies vm.regs, vm.memory, vm.flags
    ensures vm.Ends(AdcOp(old(vm.Core()), p, size), r)
  {
    hide VMState.GetArg, VMState.SetArg, AddOp;
    var carryAdd := if vm.flags.carry then 1 else 0;
    var a :- vm.GetArg(p.args[0].location);
    var prelim :- Exact(a, size);
    var _ :- vm.SetArg(p.args[0].location, Sized((prelim as int + carryAdd) % Modulus(size), size));
    r := AddTo(vm, p, size);
  }

  method SubFrom(vm: VM, p: Slot, size: ValueSize) returns (r: Result<()>)
    requires vm.Valid()
    modifies vm.regs, vm.memory, vm.flags
    ensures vm.Ends(SubOp(old(vm.Core()), p, size), r)
  {
    hide VMState.GetArg, VMState.SetArg, SubWithFlags;
    var a :- vm.GetArg(p.args[0].location);
    var base :- Exact(a, size);
    var b :- vm.GetArg(p.args[1].location);
    var subt :- Extended(b, size);
    var result := Difference(vm, base, subt, size);
    r := vm.SetArg(p.args[0].location, Sized(result, size));
  }

  method Compare(vm: VM, p: Slot, size: ValueSize) returns (r: Result<()>)
    requires vm.Valid()
    modifies vm.flags
    ensures vm.Ends(CmpOp(old(vm.Core()), p, size), r)
  {
    hide VMState.GetArg, SubWithFlags;
    var a :- vm.GetArg(p.args[0].location);
    var base :- Exact(a, size);
    var b :- vm.GetArg(p.args[1].location);
    var cmpt :- Extended(b, size);
    var _ := Difference(vm, base, cmpt, size);
    return Ok(());
  }

  method SetResultFlags(vm: VM, al: u8)
    modifies vm.flags
    ensures vm.flags.Value() == old(vm.flags.Value()).(parity := EvenParity(al), sign := al >= 0x80, zero := al == 0)
  {
    hide EvenParity;
    vm.flags.CalculateParity(al);
    vm.flags.CalculateSign8(al);
    vm.flags.CalculateZero(al);
  }

  /** The middle of daa: AL and the flags. */
  method AdjustDigits(vm: VM, oldAl: u8) returns (al: u8)
    modifies vm.flags
    ensures (al, vm.flags.Value()) == DaaWithFlags(old(vm.flags.Value()), oldAl)
  {
    hide EvenParity;
    al := oldAl;
    var oldCarry := vm.flags.carry;
    if al % 16 > 9 || vm.flags.adjust {
      vm.flags.carry := al as int + 6 >= 0x100;
      al := (al as int + 6) % 0x100;
      vm.flags.adjust := true;
    } else {
      vm.flags.adjust := false;
    }
    assert al == DaaLow(oldAl, old(vm.flags.adjust));
    if oldAl > 0x99 || oldCarry {
      al := (al as int + 0x60) % 0x100;
      vm.flags.carry := true;
    } else {
      vm.flags.carry := false;
    }
    assert al == DaaResult(oldAl, old(vm.flags.adjust), oldCarry);
    hide DaaResult, DaaLow;
    SetResultFlags(vm, al);
  }

  method DecimalAdjust(vm: VM) returns (r: Result<()>)
    requires vm.Valid()
    modifies vm.regs, vm.flags
    ensures vm.Ends(DaaOp(old(vm.Core())), r)
  {
    hide DaaWithFlags, VMState.SetReg;
    var oldAl: u8 := vm.regs[EAX] % 0x100;
    var al := AdjustDigits(vm, oldAl);
    vm.SetReg(AL, Byte(al));
    return Ok(());
  }

  /** The middle of rcl: the rotated operand and the flags. */
  method RotateLeftBits(vm: VM, destination: u32, count: nat, size: ValueSize) returns (result: nat)
    requires 0 < count < Bits(size)
    modifies vm.flags
    ensures (result, vm.flags.Value()) == RclWithFlags(old(vm.flags.Value()), destination, count, size)
    ensures result < Modulus(size)
  {
    hide GetBit, RclBits;
    var w := Bits(size);
    var base := 2 * destination + CarryBit(vm.flags.Value());
    result := RclBits(base, count, w);
    vm.flags.carry := GetBit(result, w + 1);
    if size != SizeDword && count == 1 {
      vm.flags.overflow := GetBit(result, w - 1) != vm.flags.carry;
    }
    result := result / 2 % Modulus(size);
    if size == SizeDword && count == 1 {
      vm.flags.overflow := GetBit(result, 31) != vm.flags.carry;
    }
  }

  method RotateLeft(vm: VM, p: Slot, size: ValueSize) returns (r: Result<()>)
    requires vm.Valid()
    modifies vm.regs, vm.memory, vm.flags
    ensures vm.Ends(RotateOp(old(vm.Core()), p, true, size), r)
  {
    hide VMState.GetArg, VMState.SetArg, RclWithFlags, RcrWithFlags;
    var a :- vm.GetArg(p.args[0].location);
    var destination :- Exact(a, size);
    var b :- vm.GetArg(p.args[1].location);
    var n :- Extended(b, size);
    var count := RotateCount(n, size);
    if count == 0 {
      return Ok(());
    }
    var result := RotateLeftBits(vm, destination, count, size);
    r := vm.SetArg(p.args[0].location, Sized(result, size));
  }

  /** The middle of rcr. */
  method RotateRightBits(vm: VM, destination: u32, count: nat, size: ValueSize) returns (result: nat)
    requires 0 < count < Bits(size)
    modifies vm.flags
    ensures (result, vm.flags.Value()) == RcrWithFlags(old(vm.flags.Value()), destination, count, size)
    ensures result < Modulus(size)
  {
    hide GetBit, RcrBits;
    var w := Bits(size);
    var base := destination + CarryBit(vm.flags.Value()) * Modulus(size);
    result := RcrBits(base, count, w);
    hide CarryBit;
    vm.flags.carry := GetBit(result, w);
    result := result % Modulus(size);
    if count == 1 {
      vm.flags.overflow := GetBit(result, w - 1) != GetBit(result, w - 2);
    }
  }

  method RotateRight(vm: VM, p: Slot, size: ValueSize) returns (r: Result<()>)
    requires vm.Valid()
    modifies vm.regs, vm.memory, vm.flags
    ensures vm.Ends(RotateOp(old(vm.Core()), p, false, size), r)
  {
    hide VMState.GetArg, VMState.SetArg, RclWithFlags, RcrWithFlags;
    var a :- vm.GetArg(p.args[0].location);
    var destination :- Exact(a, size);
    var b :- vm.GetArg(p.args[1].location);
    var n :- Extended(b, size);
    var count := RotateCount(n, size);
    if count == 0 {
      return Ok(());
    }
    var result := RotateRightBits(vm, destination, count, size);
    r := vm.SetArg(p.args[0].location, Sized(result, size));
  }

  /** Byte products go to AX as a word. */
  lemma PairOfBytes(r: Regs, low: u8, high: u8)
    ensures SetReg(r, EAX, Word(low + 0x100 * high)) == SetPair(r, low, high, SizeByte)
  {
    var x := r[EAX];
    var first := x - x % 0x100 + low;
    assert first / 0x100 % 0x100 == x / 0x100 % 0x100;
    assert x % 0x1_0000 == x / 0x100 % 0x100 * 0x100 + x % 0x100;
  }

  /** Writes a product to the register pair. */
  method SetProduct(vm: VM, low: int, high: int, size: ValueSize)
    requires vm.Valid() && 0 <= low < Modulus(size) && 0 <= high < Modulus(size)
    modifies vm.regs
    ensures vm.regs[..] == SetPair(old(vm.regs[..]), low, high, size)
  {
    hide VMState.SetReg;
    if size == SizeByte {
      PairOfBytes(vm.regs[..], low, high);
      vm.SetReg(EAX, Word(low + 0x100 * high));
    } else {
      vm.SetReg(EAX, Sized(low, size));
      vm.SetReg(EDX, Sized(high, size));
    }
  }

  method Multiply(vm: VM, p: Slot, size: ValueSize) returns (r: Result<()>)
    requires vm.Valid()
    modifies vm.regs, vm.flags
    ensures vm.Ends(MulOp(old(vm.Core()), p, size), r)
  {
    hide VMState.GetArg, VMState.GetReg, SetPair, Factor, LowHalf, HighHalf;
    var v :- vm.GetArg(p.args[0].location);
    var second :- Factor(v, size);
    var first := vm.GetReg(EAX, size).Number();
    var m := Modulus(size);
    var product: nat := first * second;
    var high := HighHalf(product, m);
    SetProduct(vm, LowHalf(product, m), high, size);
    if high > 0 {
      vm.flags.carry := true;
      vm.flags.overflow := true;
    } else {
      vm.flags.carry := false;
      vm.flags.overflow := false;
    }
    return Ok(());
  }

  method Divide(vm: VM, p: Slot, size: ValueSize) returns (r: Result<()>)
    requires vm.Valid()
    modifies vm.regs
    ensures vm.Ends(DivOp(old(vm.Core()), p, size), r)
  {
    hide VMState.GetArg, VMState.SetReg, Pair;
    var first := Pair(vm.regs[..], size);
    var v :- vm.GetArg(p.args[0].location);
    var second :- Factor(v, size);
    if second == 0 || first / second >= Modulus(size) {
      return Err(DivideByZero);
    }
    if size == SizeByte {
      vm.SetReg(AL, Byte(first / second));
      vm.SetReg(AH, Byte(first % second % 0x100));
    } else {
      vm.SetReg(EAX, Sized(first / second, size));
      vm.SetReg(EDX, Sized(first % second % Modulus(size), size));
    }
    return Ok(());
  }

  // ---------- jumps ----------

  method JmpRel(vm: VM, p: Slot) returns (r: Result<()>)
    requires vm.Valid()
    modifies vm`eip
    ensures vm.Ends(JumpRelativeOp(old(vm.Core()), p), r)
  {
    hide VMState.GetArg, Wrap32;
    var futureEip := Wrap32(vm.eip + p.eipSize);
    var v :- vm.GetArg(p.args[0].location);
    var rel :- v.U32Sx();
    vm.eip := Wrap32(Wrap32(futureEip as int + rel) as int - p.eipSize as int);
    if p.sizeOverride {
      vm.eip := vm.eip % 0x1_0000;
    }
    return Ok(());
  }

  method JmpAbs(vm: VM, p: Slot) returns (r: Result<()>)
    requires vm.Valid()
    modifies vm`eip
    ensures vm.Ends(JumpAbsoluteOp(old(vm.Core()), p), r)
  {
    hide VMState.GetArg, Wrap32;
    var v :- vm.GetArg(p.args[0].location);
    var target :- v.U32Zx();
    vm.eip := Wrap32(target as int - p.eipSize as int);
    if p.sizeOverride {
      vm.eip := vm.eip % 0x1_0000;
    }
    return Ok(());
  }

  method CallRel(vm: VM, p: Slot) returns (r: Result<()>)
    requires vm.Valid()
    modifies vm`eip, vm.regs, vm.memory
    ensures vm.Ends(CallRelativeOp(old(vm.Core()), p), r)
  {
    hide VMState.GetArg, VMState.SetArg, Push, JumpRelativeOp;
    var v :- vm.GetArg(p.args[0].location);
    var branchTo :- v.U32Zx();
    var _ :- vm.PushStack(Dword(Wrap32(vm.eip + p.eipSize)), p);
    var _ :- vm.SetArg(p.args[1].location, Dword(branchTo));
    r := JmpRel(vm, p);
  }

  method CallAbs(vm: VM, p: Slot) returns (r: Result<()>)
    requires vm.Valid()
    modifies vm`eip, vm.regs, vm.memory
    ensures vm.Ends(CallAbsoluteOp(old(vm.Core()), p), r)
  {
    hide VMState.GetArg, VMState.SetArg, Push, JumpAbsoluteOp;
    var v :- vm.GetArg(p.args[0].location);
    var branchTo :- v.U32Zx();
    var _ :- vm.PushStack(Dword(Wrap32(vm.eip + p.eipSize)), p);
    var _ :- vm.SetArg(p.args[1].location, Dword(branchTo));
    r := JmpAbs(vm, p);
  }

  method Return(vm: VM, p: Slot) returns (r: Result<()>)
    requires vm.Valid()
    modifies vm`eip, vm.regs
    ensures vm.Ends(RetOp(old(vm.Core()), p), r)
  {
    hide VMState.GetArg, Pop;
    var v :- vm.GetArg(p.args[0].location);
    var stackClear :- v.U16Zx();
    var popped :- vm.PopStack(if p.sizeOverride then SizeWord else SizeDword);
    var target :- popped.U32Zx();
    vm.eip := Wrap32(target as int - p.eipSize as int);
    if p.sizeOverride {
      vm.eip := vm.eip % 0x1_0000;
    }
    ghost var popped' := vm.regs[..];
    if stackClear != 0 {
      vm.regs[ESP] := Wrap32(vm.regs[ESP] + stackClear);
    }
    assert vm.regs[..] == popped'[ESP := Wrap32(popped'[ESP] + stackClear)];
    return Ok(());
  }

  method Jcc(vm: VM, p: Slot) returns (r: Result<()>)
    requires vm.Valid()
    modifies vm`eip
    ensures vm.Ends(JumpIfOp(old(vm.Core()), p), r)
  {
    hide JumpRelativeOp, CcMatches;
    if CcMatches(p.opcode, vm.flags.Value()) {
      r := JmpRel(vm, p);
    } else {
      return Ok(());
    }
  }

  method Jecxz(vm: VM, p: Slot) returns (r: Result<()>)
    requires vm.Valid()
    modifies vm`eip
    ensures vm.Ends(JumpIfEcxZeroOp(old(vm.Core()), p), r)
  {
    hide JumpRelativeOp;
    if vm.regs[ECX] == 0 {
      r := JmpRel(vm, p);
    } else {
      return Ok(());
    }
  }

  // ---------- strings ----------

  /** The step of ESI and EDI as an unsigned word. */
  function Delta(direction: bool, size: ValueSize): u32 {
    if direction then Wrap32(-(SizeInBytes(size) as int)) else SizeInBytes(size)
  }

  lemma DeltaMoves(c: Cpu, reg: u3, size: ValueSize)
    ensures Wrap32(c.regs[reg] as int + Delta(c.flags.direction, size)) == Moved(c, reg, size)
  {
  }

  method Advance(vm: VM, reg: u3, size: ValueSize)
    requires vm.Valid()
    modifies vm.regs
    ensures vm.Core() == WithReg(old(vm.Core()), reg, Moved(old(vm.Core()), reg, size))
  {
    DeltaMoves(vm.Core(), reg, size);
    hide Delta, Moved;
    vm.SetReg32(reg, Wrap32(vm.regs[reg] as int + Delta(vm.flags.direction, size)));
  }

  method MoveString(vm: VM, size: ValueSize) returns (r: Result<()>)
    requires vm.Valid()
    modifies vm.regs, vm.memory
    ensures vm.Ends(MovsOp(old(vm.Core()), size), r)
  {
    hide Memory.GetMem, StoreAt, Wrap32;
    var v :- vm.GetMem(vm.regs[ESI], size);
    var _ :- vm.SetMem(vm.regs[EDI], v);
    Advance(vm, EDI, size);
    Advance(vm, ESI, size);
    return Ok(());
  }

  method CompareString(vm: VM, size: ValueSize) returns (r: Result<()>)
    requires vm.Valid()
    modifies vm.regs, vm.flags
    ensures vm.Ends(CmpsOp(old(vm.Core()), size), r)
  {
    hide Memory.GetMem, Wrap32, SubWithFlags;
    var d :- vm.GetMem(vm.regs[ESI], size);
    var s :- vm.GetMem(vm.regs[EDI], size);
    var destination, source := d.Number() % 0x1_0000_0000, s.Number() % 0x1_0000_0000;
    var _ := Difference(vm, destination, source, size);
    Advance(vm, EDI, size);
    Advance(vm, ESI, size);
    return Ok(());
  }

  method StoreString(vm: VM, size: ValueSize) returns (r: Result<()>)
    requires vm.Valid()
    modifies vm.regs, vm.memory
    ensures vm.Ends(StosOp(old(vm.Core()), size), r)
  {
    hide VMState.GetReg, StoreAt, Wrap32;
    var _ :- vm.SetMem(vm.regs[EDI], vm.GetReg(EAX, size));
    Advance(vm, EDI, size);
    return Ok(());
  }

  method LoadString(vm: VM, size: ValueSize) returns (r: Result<()>)
    requires vm.Valid()
    modifies vm.regs
    ensures vm.Ends(LodsOp(old(vm.Core()), size), r)
  {
    hide Memory.GetMem, Wrap32;
    var v :- vm.GetMem(vm.regs[ESI], size);
    vm.SetReg(EAX, v);
    Advance(vm, ESI, size);
    return Ok(());
  }

  method ScanString(vm: VM, size: ValueSize) returns (r: Result<()>)
    requires vm.Valid()
    modifies vm.regs, vm.flags
    ensures vm.Ends(ScasOp(old(vm.Core()), size), r)
  {
    hide Memory.GetMem, VMState.GetReg, Wrap32, SubWithFlags;
    var v :- vm.GetMem(vm.regs[EDI], size);
    var acc, source := vm.GetReg(EAX, size).Number() % 0x1_0000_0000, v.Number() % 0x1_0000_0000;
    var _ := Difference(vm, acc, source, size);
    Advance(vm, EDI, size);
    return Ok(());
  }

  // ---------- dispatch ----------

  method CallString(vm: VM, op: Op, p: Slot) returns (r: Result<()>)
    requires vm.Valid() && IsStringOp(op)
    modifies vm.regs, vm.memory, vm.flags
    ensures vm.Ends(StringOp(old(vm.Core()), op, p.sizeOverride), r)
  {
    hide MovsOp, CmpsOp, StosOp, LodsOp, ScasOp;
    var size := op.width.Size(p.sizeOverride);
    match op {
      case Movs(_) => r := MoveString(vm, size);
      case Cmps(_) => r := CompareString(vm, size);
      case Stos(_) => r := StoreString(vm, size);
      case Lods(_) => r := LoadString(vm, size);
      case Scas(_) => r := ScanString(vm, size);
    }
  }

  method CallAlu(vm: VM, kind: AluKind, p: Slot, size: ValueSize) returns (r: Result<()>)
    requires vm.Valid()
    modifies vm.regs, vm.memory, vm.flags
    ensures vm.Ends(AluOp(old(vm.Core()), p, kind, size), r)
  {
    hide AddOp, AdcOp, SubOp, CmpOp;
    match kind {
      case Add => r := AddTo(vm, p, size);
      case Adc => r := AddWithCarry(vm, p, size);
      case Sub => r := SubFrom(vm, p, size);
      case Cmp => r := Compare(vm, p, size);
    }
  }

  method Undefined(vm: VM) returns (r: Result<()>)
    requires vm.Valid()
    ensures forall p :: vm.Ends(CpuOp(vm.Core(), Op.Undefined, p), r)
  {
    hide Memory.Read;
    var b :- vm.GetMem(vm.eip, SizeByte);
    return Err(InvalidOpcode(b.b));
  }

  predicate MovesData(op: Op) {
    op.Mov? || op.Lea? || op.PushArg? || op.PopArg? || op.PushAll? || op.PopAll? || op.PushFlags? || op.PopFlags?
  }

  method CallMove(vm: VM, op: Op, p: Slot) returns (r: Result<()>)
    requires vm.Valid() && MovesData(op)
    modifies vm.regs, vm.memory, vm.flags
    ensures vm.Ends(CpuOp(old(vm.Core()), op, p), r)
  {
    hide MovOp, LeaOp, PushOp, PopOp, PushAllOp, PopAllOp, PushFlagsOp, PopFlagsOp;
    match op {
      case Mov => r := Mov(vm, p);
      case Lea => r := Lea(vm, p);
      case PushArg => r := PushOne(vm, p);
      case PopArg => r := PopOne(vm, p);
      case PushAll => r := Pusha(vm, p);
      case PopAll => r := Popa(vm, p);
      case PushFlags => r := Pushf(vm, p);
      case PopFlags => r := Popf(vm, p);
    }
  }

  predicate Computes(op: Op) {
    op.Alu? || op.Daa? || op.Rcl? || op.Rcr? || op.Mul? || op.Div?
  }

  method CallArithmetic(vm: VM, op: Op, p: Slot) returns (r: Result<()>)
    requires vm.Valid() && Computes(op)
    modifies vm.regs, vm.memory, vm.flags
    ensures vm.Ends(CpuOp(old(vm.Core()), op, p), r)
  {
    hide AluOp, DaaOp, RotateOp, MulOp, DivOp;
    match op {
      case Alu(kind, w) => r := CallAlu(vm, kind, p, w.Size(p.sizeOverride));
      case Daa => r := DecimalAdjust(vm);
      case Rcl(w) => r := RotateLeft(vm, p, w.Size(p.sizeOverride));
      case Rcr(w) => r := RotateRight(vm, p, w.Size(p.sizeOverride));
      case Mul(w) => r := Multiply(vm, p, w.Size(p.sizeOverride));
      case Div(w) => r := Divide(vm, p, w.Size(p.sizeOverride));
    }
  }

  predicate Jumps(op: Op) {
    || op.JumpRelative? || op.JumpAbsolute? || op.JumpIf? || op.JumpIfEcxZero?
    || op.CallRelative? || op.CallAbsolute? || op.Ret?
  }

  method CallJump(vm: VM, op: Op, p: Slot) returns (r: Result<()>)
    requires vm.Valid() && Jumps(op)
    modifies vm`eip, vm.regs, vm.memory
    ensures vm.Ends(CpuOp(old(vm.Core()), op, p), r)
  {
    hide JumpRelativeOp, JumpAbsoluteOp, JumpIfOp, JumpIfEcxZeroOp, CallRelativeOp, CallAbsoluteOp, RetOp;
    match op {
      case JumpRelative => r := JmpRel(vm, p);
      case JumpAbsolute => r := JmpAbs(vm, p);
      case JumpIf => r := Jcc(vm, p);
      case JumpIfEcxZero => r := Jecxz(vm, p);
      case CallRelative => r := CallRel(vm, p);
      case CallAbsolute => r := CallAbs(vm, p);
      case Ret => r := Return(vm, p);
    }
  }

  lemma StringIsCpuOp(c: Cpu, op: Op, p: Slot)
    requires IsStringOp(op)
    ensures OnCpu(op) && CpuOp(c, op, p) == StringOp(c, op, p.sizeOverride)
  {
    hide StringOp;
  }

  /** The opcode functions that work on the cpu alone. */
  method CallOnCpu(vm: VM, op: Op, p: Slot) returns (r: Result<()>)
    requires vm.Valid() && OnCpu(op)
    modifies vm`eip, vm.regs, vm.memory, vm.flags
    ensures vm.Ends(CpuOp(old(vm.Core()), op, p), r)
  {
    if MovesData(op) {
      r := CallMove(vm, op, p);
    } else if Computes(op) {
      r := CallArithmetic(vm, op, p);
    } else if Jumps(op) {
      r := CallJump(vm, op, p);
    } else if IsStringOp(op) {
      hide CpuOp, StringOp;
      StringIsCpuOp(vm.Core(), op, p);
      r := CallString(vm, op, p);
    } else if op.Undefined? {
      hide CpuOp;
      r := Undefined(vm);
    } else {
      if op.SetDirection? {
        vm.flags.direction := true;
      } else if op.ClearDirection? {
        vm.flags.direction := false;
      }
      return Ok(());
    }
  }

  /** Any opcode function but the rep loops. */
  method Call(vm: VM, op: Op, p: Slot, hv: Hypervisor) returns (r: Result<()>)
    requires vm.Valid() && !op.Repe? && !op.Repne?
    modifies vm, vm.regs, vm.memory, vm.flags
    ensures vm.Leaves(ExecOnce(hv, op, p, old(vm.Snapshot())), r)
  {
    hide CpuOp, VMState.GetArg;
    if op.Hlt? {
      return Err(InternalVMStop);
    } else if op.Interrupt? {
      var v :- vm.GetArg(p.args[0].location);
      var num :- v.U8Exact();
      match hv(vm.Snapshot(), num) {
        case Done(s) => vm.Restore(s); return Ok(());
        case Raised(s, error) => vm.Restore(s); return Err(error);
      }
    } else {
      r := CallOnCpu(vm, op, p);
    }
  }

  // ---------- rep prefixes ----------

  method DecrementRegW(vm: VM, sizeOverride: bool)
    requires vm.Valid()
    modifies vm.regs
    ensures vm.Core() == Decremented(old(vm.Core()), sizeOverride)
  {
    var ecx := vm.regs[ECX];
    if sizeOverride {
      vm.SetReg32(ECX, ecx - ecx % 0x1_0000 + (ecx % 0x1_0000 as int - 1) % 0x1_0000);
    } else {
      vm.SetReg32(ECX, Wrap32(ecx as int - 1));
    }
  }

  /** The loop body that repe and repne share: the string function, ECX, the gas. */
  method OneTurn(vm: VM, p: Slot, gasCost: u64, hv: Hypervisor) returns (r: Result<()>)
    requires vm.Valid()
    modifies vm, vm.regs, vm.memory, vm.flags
    ensures vm.Leaves(RepTurn(hv, p, old(vm.Snapshot()), gasCost), r)
  {
    hide ExecOnce, Decremented, RepFunction;
    var _ :- Call(vm, RepFunction(p), p, hv);
    DecrementRegW(vm, p.sizeOverride);
    vm.gasRemaining := SatSub(vm.gasRemaining, gasCost);
    return Ok(());
  }

  method RepeatWhileEqual(vm: VM, p: Slot, hv: Hypervisor) returns (r: Result<()>)
    requires vm.Valid()
    modifies vm, vm.regs, vm.memory, vm.flags
    ensures vm.Leaves(RepLoop(hv, p, old(vm.Snapshot()), RepGas(old(vm.charger), p), false), r)
  {
    hide RepTurn, RepCount, RepFlagOpcode, RepNoFlagOpcode, RepGas;
    var gasCost := RepGas(vm.charger, p);
    ghost var whole := RepLoop(hv, p, vm.Snapshot(), gasCost, false);
    while RepCount(vm.Core(), p.sizeOverride) != 0
      invariant RepLoop(hv, p, vm.Snapshot(), gasCost, false) == whole
      decreases RepCount(vm.Core(), p.sizeOverride)
    {
      if vm.gasRemaining == 0 {
        return Err(OutOfGas);
      }
      ghost var s := vm.Snapshot();
      var _ :- OneTurn(vm, p, gasCost, hv);
      if RepFlagOpcode(p.opcode) {
        if vm.flags.zero == false {
          return Ok(());
        }
      } else if !RepNoFlagOpcode(p.opcode) {
        return Err(InvalidOpcodeEncoding);
      }
      RepTurnCounts(hv, p, s, gasCost);
    }
    return Ok(());
  }

  method RepeatWhileNotEqual(vm: VM, p: Slot, hv: Hypervisor) returns (r: Result<()>)
    requires vm.Valid()
    modifies vm, vm.regs, vm.memory, vm.flags
    ensures vm.Leaves(if RepFlagOpcode(p.opcode)
                      then RepLoop(hv, p, old(vm.Snapshot()), RepGas(old(vm.charger), p), true)
                      else Raised(old(vm.Snapshot()), InvalidOpcodeEncoding), r)
  {
    hide RepTurn, RepCount, RepFlagOpcode, RepNoFlagOpcode, RepGas;
    if !RepFlagOpcode(p.opcode) {
      return Err(InvalidOpcodeEncoding);
    }
    var gasCost := RepGas(vm.charger, p);
    ghost var whole := RepLoop(hv, p, vm.Snapshot(), gasCost, true);
    while RepCount(vm.Core(), p.sizeOverride) != 0
      invariant RepLoop(hv, p, vm.Snapshot(), gasCost, true) == whole
      decreases RepCount(vm.Core(), p.sizeOverride)
    {
      if vm.gasRemaining == 0 {
        return Err(OutOfGas);
      }
      ghost var s := vm.Snapshot();
      var _ :- OneTurn(vm, p, gasCost, hv);
      if vm.flags.zero {
        return Ok(());
      }
      RepTurnCounts(hv, p, s, gasCost);
    }
    return Ok(());
  }

  /** What a slot's function pointer calls. */
  method Function(vm: VM, p: Slot, hv: Hypervisor) returns (r: Result<()>)
    requires vm.Valid()
    modifies vm, vm.regs, vm.memory, vm.flags
    ensures vm.Leaves(Exec(hv, p, old(vm.Snapshot())), r)
  {
    hide RepLoop, ExecOnce, RepGas, RepFlagOpcode;
    if p.op.Repe? {
      r := RepeatWhileEqual(vm, p, hv);
    } else if p.op.Repne? {
      r := RepeatWhileNotEqual(vm, p, hv);
    } else {
      r := Call(vm, p.op, p, hv);
    }
  }
}

// From the bytes of an instruction to what a step of the machine does.

module Assembled {
  import opened Words
  import opened Errors
  import opened Structs
  import opened Memory
  import opened VMState
  import opened Opcodes
  import OpcodeMap
  import opened Fetch
  import opened EffectiveAddress
  import opened Pipeline
  import opened Arithmetic
  import opened Ops
  import opened Places
  import Compare
  import Rotate
  import opened Encoding
  import opened Instructions
  import X86
  import Programs

  /** An instruction as an assembler writes it. */
  datatype Instruction = Instruction(p: Prefixes, opcode: u8, reg: u3, rm: RegMem, values: Values) {
    ghost predicate Correct() {
      p.rep == NoRep && Writable(OPCODES, p, opcode, reg, rm)
    }

    function Entry(): Opcode {
      Encoding.Entry(OPCODES, p, opcode, reg)
    }

    function Bytes(): seq<u8>
      requires Correct()
    {
      InstructionBytes(OPCODES, p, opcode, reg, rm, values)
    }
  }

  /** The instruction stands at this address, with a whole window to read. */
  ghost predicate CodeAt(m: Mem, eip: u32, i: Instruction) {
    i.Correct() && |i.Bytes()| <= 16 && Read(m, eip, 16).Ok? && Read(m, eip, 16).value[..|i.Bytes()|] == i.Bytes()
  }

  /** A slot that the instruction decodes to. */
  ghost predicate Decodes(slot: Slot, s: State, i: Instruction)
    requires i.Correct()
  {
    IsEncoded(slot, s.costs, InWriteable(s.cpu.eip), OPCODES, i.p, i.opcode, i.reg, i.rm, i.values)
  }

  lemma CodeDecodes(s: State, i: Instruction) returns (slot: Slot)
    requires CodeAt(s.cpu.mem, s.cpu.eip, i)
    requires i.Entry().behavior == RelativeJump ==> !i.p.sizeOverride
    ensures Decodes(slot, s, i) && slot.op == i.Entry().op
    ensures var d := DecodeAt(OPCODES, s, s.cpu.eip, InWriteable(s.cpu.eip), DEFAULT_SLOT); d.Ok? && d.value.slot == slot
  {
    hide DecodeWindow, InstructionBytes, Lookup, Sane, SaneRow, HasModRM, IsEncoded;
    var window := Read(s.cpu.mem, s.cpu.eip, 16).value;
    var rest := window[|i.Bytes()|..];
    assert Writable(OPCODES, i.p, i.opcode, i.reg, i.rm);
    EntryIsSane(i);
    assert window == i.Bytes() + rest;
    DecodesInstruction(OPCODES, s, window, s.cpu.eip, InWriteable(s.cpu.eip), DEFAULT_SLOT,
                       i.p, i.opcode, i.reg, i.rm, i.values, rest);
    slot := DecodeWindow(OPCODES, s, window, s.cpu.eip, InWriteable(s.cpu.eip), DEFAULT_SLOT).value.slot;
    SlotOp(slot, s, i);
  }

  lemma SlotOp(slot: Slot, s: State, i: Instruction)
    requires i.Correct() && Decodes(slot, s, i)
    ensures slot.op == i.Entry().op && slot.opcode == i.opcode && slot.sizeOverride == i.p.sizeOverride
    ensures slot.eipSize == |i.Bytes()|
  {
    hide Lookup, Sane, SaneRow, HasModRM, InstructionBytes, Stands;
  }

  lemma EntryIsSane(i: Instruction)
    ensures i.Entry().behavior == RelativeJump ==> i.Entry().source[0] == JumpRel
  {
    hide Lookup, HasModRM;
    var row := Lookup(Index(i.p, i.opcode));
    assert SaneRow(row);
    assert Sane(row.opcodes[i.reg], row.hasModRM) && Sane(row.opcodes[0], row.hasModRM);
  }

  /** One step of the machine on an instruction in memory: its price is charged,
      its function works on the cpu, and eip moves past its bytes. */
  lemma StepRuns(hv: Hypervisor, s: State, i: Instruction) returns (slot: Slot)
    requires CodeAt(s.cpu.mem, s.cpu.eip, i) && OnCpu(i.Entry().op)
    requires i.Entry().behavior == RelativeJump ==> !i.p.sizeOverride
    ensures Decodes(slot, s, i) && slot.op == i.Entry().op
    ensures Step(Programs.Qx86(hv), s) ==
              if s.gas < slot.gasCost then Failed(s.(gas := 0), OutOfGas)
              else
                var left := s.gas - slot.gasCost;
                match CpuOp(s.cpu, slot.op, slot)
                case Done(c) => Continue(s.(cpu := Advanced(c, slot), gas := left))
                case Raised(c, e) => Failed(s.(cpu := c, gas := left, errorEip := c.eip), e)
  {
    hide DecodeAt, Decodes, CodeAt, CpuOp, Exec, Lookup, Sane, SaneRow;
    slot := CodeDecodes(s, i);
    X86.ExecOnCpu(hv, slot, s.(gas := SatSub(s.gas, slot.gasCost)));
    X86.CpuOpsHarmless(s.cpu, slot.op, slot);
  }

  // ---------- operands ----------

  /** The register-or-memory operand can be read. */
  predicate CanRead(c: Cpu, rm: RegMem, size: ValueSize) {
    rm.InMemory? ==> Inside(c.mem, AddressOf(c.regs, rm.m), SizeInBytes(size))
  }

  /** What it reads as. */
  function NumberIn(c: Cpu, rm: RegMem, size: ValueSize): nat
    requires CanRead(c, rm, size)
  {
    match rm
    case InRegister(r) => GetReg(c.regs, r, size).Number()
    case InMemory(m) => LittleEndian(BytesAt(c.mem, AddressOf(c.regs, m), SizeInBytes(size)))
  }

  lemma OperandIs(c: Cpu, arg: OpArgument, opcode: u8, reg: u3, rm: RegMem, size: ValueSize)
    requires IsWidth(size) && Stands(arg, ModRM, size, opcode, reg, rm, 0)
    ensures IsPlace(c.regs, arg.location, size) && (rm.InMemory? <==> arg.isMemory)
    ensures rm.InMemory? ==> GetArgLea(c.regs, arg.location) == Ok(AddressOf(c.regs, rm.m)) && !arg.location.RegisterValue?
    ensures rm.InRegister? ==> arg.location == RegisterValue(rm.r, size)
    ensures CanRead(c, rm, size) ==> Reads(c, arg.location, size, NumberIn(c, rm, size))
  {
    hide AddressOf, GetArgLea, GetArg, LittleEndian, Inside, GetReg;
    match rm
    case InRegister(r) =>
      ReadsRegister(c, arg.location);
      RegisterNumber(c.regs, r, size);
    case InMemory(m) =>
      hide OperandAt;
      LocationAddress(c.regs, arg.location, m);
      ReadsItsAddress(c, arg.location, AddressOf(c.regs, m));
      NotARegister(arg.location, m);
  }

  lemma NotARegister(loc: ArgLocation, m: MemoryOperand)
    requires OperandAt(loc) == Some(m)
    ensures !loc.RegisterValue?
  {
  }

  lemma RegisterIs(c: Cpu, arg: OpArgument, reg: u3, size: ValueSize)
    requires IsWidth(size) && arg.location == RegisterValue(reg, size)
    ensures GetArg(c.regs, c.mem, arg.location) == Ok(GetReg(c.regs, reg, size))
    ensures HasSize(GetReg(c.regs, reg, size), size) && Reads(c, arg.location, size, GetReg(c.regs, reg, size).Number())
    ensures ReadsSigned(c, arg.location, size, GetReg(c.regs, reg, size).Number())
  {
    hide GetReg;
    RegisterNumber(c.regs, reg, size);
  }

  /** The operands of an instruction with a register and a register-or-memory operand. */
  lemma TwoOperands(slot: Slot, s: State, i: Instruction, op: Op, size: OpcodeValueSize, gas: GasTier)
    requires i.Correct() && Decodes(slot, s, i) && OpcodeMap.Is(i.Entry(), op, ModRM, ModRMReg, size, gas, Plain)
    ensures slot.op == op && slot.opcode == i.opcode && slot.sizeOverride == i.p.sizeOverride && slot.eipSize == |i.Bytes()|
    ensures slot.args[1] == OpArgument(RegisterValue(i.reg, size.ToFixed(i.p.sizeOverride)), false)
    ensures Stands(slot.args[0], ModRM, size.ToFixed(i.p.sizeOverride), i.opcode, i.reg, i.rm, 0)
    ensures slot.gasCost == Wrap64(Price(s.costs, i.Entry(), Lookup(Index(i.p, i.opcode)).hasModRM,
                                         if slot.args[0].isMemory then 1 else 0, InWriteable(s.cpu.eip)))
  {
    hide Lookup, Sane, SaneRow, HasModRM, InstructionBytes, Price, OperandAt, Wrap64;
    var o := i.Entry();
    assert Stands(slot.args[0], o.source[0], o.size[0].ToFixed(i.p.sizeOverride), i.opcode, i.reg, i.rm, i.values[0]);
    assert Stands(slot.args[1], o.source[1], o.size[1].ToFixed(i.p.sizeOverride), i.opcode, i.reg, i.rm, i.values[1]);
    assert Stands(slot.args[2], o.source[2], o.size[2].ToFixed(i.p.sizeOverride), i.opcode, i.reg, i.rm, i.values[2]);
  }

  // ---------- mov [m], r ----------

  /** What an instruction with a Mod R/M byte and this base price costs. */
  function Charge(s: State, tier: GasTier, memory: nat): u64 {
    Wrap64(Cost(s.costs, tier) as int + Cost(s.costs, ModRMSurcharge) as int + memory * Cost(s.costs, MemoryAccess) as int
           + if InWriteable(s.cpu.eip) then Cost(s.costs, WriteableMemoryExec) as int else 0)
  }

  lemma ChargeIs(s: State, o: Opcode, memory: nat)
    requires o.behavior == Plain
    ensures Wrap64(Price(s.costs, o, true, memory, InWriteable(s.cpu.eip))) == Charge(s, o.gas, memory)
  {
    hide Wrap64, Cost;
  }

  lemma MovEntry(i: Instruction)
    requires i.Correct() && !i.p.twoBytes && 0x88 <= i.opcode <= 0x89
    ensures OpcodeMap.Is(i.Entry(), Mov, ModRM, ModRMReg, OpcodeMap.SizeBit(i.opcode), VeryLow, Plain)
    ensures Lookup(Index(i.p, i.opcode)).hasModRM
  {
    hide Lookup, Sane, SaneRow, HasModRM, OpcodeMap.Is, OpcodeMap.Pick;
    OpcodeMap.MovesRegMem(i.opcode - 0x88, i.reg);
  }

  /** A register stored to a memory operand. */
  lemma StoresAtOperand(c: Cpu, slot: Slot, i: Instruction, size: ValueSize)
    requires i.rm.InMemory? && IsWidth(size) && Stands(slot.args[0], ModRM, size, i.opcode, i.reg, i.rm, 0)
    requires slot.args[1].location == RegisterValue(i.reg, size)
    ensures var r := CpuOp(c, Mov, slot);
            var a, n := AddressOf(c.regs, i.rm.m), SizeInBytes(size);
            && (r.Done? <==> a >= WRITEABLE_MEMORY && Inside(c.mem, a, n))
            && (r.Done? ==>
                  && r.value == c.(mem := r.value.mem) && OnlyBytesChanged(c.mem, r.value.mem, a, n)
                  && Inside(r.value.mem, a, n)
                  && LittleEndian(BytesAt(r.value.mem, a, n)) == GetReg(c.regs, i.reg, size).Number())
  {
    hide CpuOp, GetArg, SetArg, GetReg, LittleEndian, Inside, OnlyBytesChanged, AddressOf, GetArgLea, Stands, Reads, ReadsSigned,
         CanRead, NumberIn, BytesAt, HasSize;
    OperandIs(c, slot.args[0], i.opcode, i.reg, i.rm, size);
    RegisterIs(c, slot.args[1], i.reg, size);
    StoresSameSize(c, slot.args[0].location, AddressOf(c.regs, i.rm.m), GetReg(c.regs, i.reg, size), size);
    MovIsSetArg(c, slot, GetReg(c.regs, i.reg, size));
  }

  /** 88 /r and 89 /r with a memory operand: one step stores the register at
      base + index * scale + displacement and goes on behind the instruction. */
  lemma StoresRegister(hv: Hypervisor, s: State, i: Instruction)
    requires CodeAt(s.cpu.mem, s.cpu.eip, i) && !i.p.twoBytes && 0x88 <= i.opcode <= 0x89 && i.rm.InMemory?
    ensures var r := Step(Programs.Qx86(hv), s);
            var size := OpcodeMap.WidthBit(i.opcode).Size(i.p.sizeOverride);
            var a, n, price := AddressOf(s.cpu.regs, i.rm.m), SizeInBytes(size), Charge(s, VeryLow, 1);
            && (r.Continue? <==> s.gas >= price && a >= WRITEABLE_MEMORY && Inside(s.cpu.mem, a, n))
            && (r.Continue? ==>
                  && r.st == s.(gas := s.gas - price,
                                cpu := s.cpu.(mem := r.st.cpu.mem, eip := Wrap32(s.cpu.eip + |i.Bytes()|)))
                  && OnlyBytesChanged(s.cpu.mem, r.st.cpu.mem, a, n) && Inside(r.st.cpu.mem, a, n)
                  && LittleEndian(BytesAt(r.st.cpu.mem, a, n)) == GetReg(s.cpu.regs, i.reg, size).Number())
  {
    hide Lookup, Sane, SaneRow, Step, CpuOp, GetReg, LittleEndian, Inside, OnlyBytesChanged, Charge, AddressOf,
         InstructionBytes, BytesAt, Writable, HasModRM, Decodes, OpcodeMap.Pick, Stands, Price, Cost, Wrap64;
    MovEntry(i);
    var slot := StepRuns(hv, s, i);
    TwoOperands(slot, s, i, Mov, OpcodeMap.SizeBit(i.opcode), VeryLow);
    var size := OpcodeMap.WidthBit(i.opcode).Size(i.p.sizeOverride);
    assert slot.args[0].isMemory by { OperandIs(s.cpu, slot.args[0], i.opcode, i.reg, i.rm, size); }
    ChargeIs(s, i.Entry(), 1);
    StoresAtOperand(s.cpu, slot, i, size);
  }

  lemma MovIsSetArg(c: Cpu, p: Slot, v: SizedValue)
    requires GetArg(c.regs, c.mem, p.args[1].location) == Ok(v)
    ensures CpuOp(c, Mov, p) == SetArg(c, p.args[0].location, v)
  {
    hide GetArg, SetArg;
  }

  // ---------- cmp r/m, r and a conditional jump ----------

  lemma CmpEntry(i: Instruction)
    requires i.Correct() && !i.p.twoBytes && 0x38 <= i.opcode <= 0x39
    ensures OpcodeMap.Is(i.Entry(), Alu(Cmp, OpcodeMap.WidthBit(i.opcode)), ModRM, ModRMReg, OpcodeMap.SizeBit(i.opcode),
                         Low, Plain)
    ensures Lookup(Index(i.p, i.opcode)).hasModRM
  {
    hide Lookup, Sane, SaneRow, HasModRM, OpcodeMap.Is, OpcodeMap.Pick;
    OpcodeMap.ArithmeticBlock(7, Cmp, i.opcode - 0x38, i.reg);
  }

  lemma JumpEntry(i: Instruction)
    requires i.Correct() && !i.p.twoBytes && 0x70 <= i.opcode <= 0x7F
    ensures OpcodeMap.Is(i.Entry(), JumpIf, JumpRel, SourceNone, Fixed(SizeByte), Low, Unpredictable)
    ensures !Lookup(Index(i.p, i.opcode)).hasModRM
  {
    hide Lookup, Sane, SaneRow, HasModRM, OpcodeMap.Is, OpcodeMap.Pick;
    OpcodeMap.Conditions(i.opcode - 0x70, i.reg);
  }

  lemma JumpOperand(slot: Slot, s: State, j: Instruction) returns (v: SizedValue)
    requires j.Correct() && !j.p.twoBytes && 0x70 <= j.opcode <= 0x7F && Decodes(slot, s, j)
    ensures slot.op == JumpIf && slot.opcode == j.opcode && slot.sizeOverride == j.p.sizeOverride
    ensures slot.eipSize == |j.Bytes()| && slot.args[0].location == Immediate(v)
    ensures v == Byte(j.values[0] % 0x100)
    ensures slot.gasCost == JumpCharge(s)
  {
    hide Lookup, Sane, SaneRow, HasModRM, InstructionBytes, OperandAt, Wrap64, OpcodeMap.Pick, Cost;
    JumpEntry(j);
    var o := j.Entry();
    assert Stands(slot.args[0], o.source[0], o.size[0].ToFixed(j.p.sizeOverride), j.opcode, j.reg, j.rm, j.values[0]);
    assert Stands(slot.args[1], o.source[1], o.size[1].ToFixed(j.p.sizeOverride), j.opcode, j.reg, j.rm, j.values[1]);
    assert Stands(slot.args[2], o.source[2], o.size[2].ToFixed(j.p.sizeOverride), j.opcode, j.reg, j.rm, j.values[2]);
    v := slot.args[0].location.v;
  }

  /** What a conditional jump costs. */
  function JumpCharge(s: State): u64 {
    Wrap64(Cost(s.costs, Low) as int + Cost(s.costs, ConditionalBranch) as int
           + if InWriteable(s.cpu.eip) then Cost(s.costs, WriteableMemoryExec) as int else 0)
  }

  /** The decoded cmp has its operands. */
  lemma CmpOperands(slot: Slot, s: State, i: Instruction, size: ValueSize)
    requires i.Correct() && !i.p.twoBytes && 0x38 <= i.opcode <= 0x39 && Decodes(slot, s, i)
    requires size == OpcodeMap.WidthBit(i.opcode).Size(i.p.sizeOverride) && CanRead(s.cpu, i.rm, size)
    ensures slot.op == Alu(Cmp, OpcodeMap.WidthBit(i.opcode)) && slot.sizeOverride == i.p.sizeOverride
    ensures slot.eipSize == |i.Bytes()| && slot.gasCost == Charge(s, Low, if i.rm.InMemory? then 1 else 0)
    ensures Reads(s.cpu, slot.args[0].location, size, NumberIn(s.cpu, i.rm, size))
    ensures ReadsSigned(s.cpu, slot.args[1].location, size, GetReg(s.cpu.regs, i.reg, size).Number())
  {
    hide Lookup, Sane, SaneRow, HasModRM, InstructionBytes, OpcodeMap.Pick, Decodes, Price, Charge, Wrap64, Stands, Reads,
         ReadsSigned, NumberIn, CanRead, GetReg, GetArg;
    CmpEntry(i);
    TwoOperands(slot, s, i, Alu(Cmp, OpcodeMap.WidthBit(i.opcode)), OpcodeMap.SizeBit(i.opcode), Low);
    OperandIs(s.cpu, slot.args[0], i.opcode, i.reg, i.rm, size);
    RegisterIs(s.cpu, slot.args[1], i.reg, size);
    ChargeIs(s, i.Entry(), if i.rm.InMemory? then 1 else 0);
  }

  lemma NumbersFit(c: Cpu, rm: RegMem, reg: u3, size: ValueSize)
    requires IsWidth(size) && CanRead(c, rm, size)
    ensures NumberIn(c, rm, size) < 0x1_0000_0000 && GetReg(c.regs, reg, size).Number() < 0x1_0000_0000
  {
    hide LittleEndian, AddressOf;
    if rm.InMemory? {
      LittleEndianFits(BytesAt(c.mem, AddressOf(c.regs, rm.m), SizeInBytes(size)));
    }
  }

  /** What the decoded cmp does. */
  lemma ComparesOperands(slot: Slot, s: State, i: Instruction, size: ValueSize)
    requires i.Correct() && !i.p.twoBytes && 0x38 <= i.opcode <= 0x39 && Decodes(slot, s, i)
    requires size == OpcodeMap.WidthBit(i.opcode).Size(i.p.sizeOverride) && CanRead(s.cpu, i.rm, size)
    ensures var a, b := NumberIn(s.cpu, i.rm, size), GetReg(s.cpu.regs, i.reg, size).Number();
            a < 0x1_0000_0000 && b < 0x1_0000_0000
    ensures OnCpu(slot.op) && slot.eipSize == |i.Bytes()| && slot.gasCost == Charge(s, Low, if i.rm.InMemory? then 1 else 0)
    ensures var r := CpuOp(s.cpu, slot.op, slot);
            var a, b := NumberIn(s.cpu, i.rm, size), GetReg(s.cpu.regs, i.reg, size).Number();
            && r.Done? && r.value == s.cpu.(flags := r.value.flags)
            && (forall opcode: u8 :: CcMatches(opcode, r.value.flags) <==> Compare.Relation(opcode % 16, a, b, size))
  {
    hide Decodes, Charge, CpuOp, Reads, ReadsSigned, NumberIn, CanRead, GetReg, Compare.Relation, CcMatches, Lookup,
         InstructionBytes, Writable;
    CmpOperands(slot, s, i, size);
    NumbersFit(s.cpu, i.rm, i.reg, size);
    CmpDecides(s.cpu, slot, OpcodeMap.WidthBit(i.opcode), NumberIn(s.cpu, i.rm, size), GetReg(s.cpu.regs, i.reg, size).Number());
  }

  lemma CorrectCode(m: Mem, eip: u32, i: Instruction)
    requires CodeAt(m, eip, i)
    ensures i.Correct()
  {
  }

  /** 38 /r and 39 /r: a step after which each condition code holds exactly when
      its relation holds between the operand and the register. */
  lemma StepCompares(hv: Hypervisor, s: State, i: Instruction)
    requires CodeAt(s.cpu.mem, s.cpu.eip, i) && !i.p.twoBytes && 0x38 <= i.opcode <= 0x39
    requires CanRead(s.cpu, i.rm, OpcodeMap.WidthBit(i.opcode).Size(i.p.sizeOverride))
    ensures var r := Step(Programs.Qx86(hv), s);
            var size := OpcodeMap.WidthBit(i.opcode).Size(i.p.sizeOverride);
            var a, b := NumberIn(s.cpu, i.rm, size), GetReg(s.cpu.regs, i.reg, size).Number();
            var price := Charge(s, Low, if i.rm.InMemory? then 1 else 0);
            && a < 0x1_0000_0000 && b < 0x1_0000_0000 && (r.Continue? <==> s.gas >= price)
            && (r.Continue? ==>
                  && r.st == s.(gas := s.gas - price,
                                cpu := s.cpu.(eip := Wrap32(s.cpu.eip + |i.Bytes()|), flags := r.st.cpu.flags))
                  && (forall opcode: u8 :: CcMatches(opcode, r.st.cpu.flags)
                                      <==> Compare.Relation(opcode % 16, a, b, size)))
  {
    hide Lookup, Sane, SaneRow, HasModRM, InstructionBytes, OpcodeMap.Pick, Decodes, Charge, CodeAt, CpuOp, Reads,
         ReadsSigned, NumberIn, CanRead, GetReg, Step, Compare.Relation, Writable, Wrap32, CcMatches;
    var size := OpcodeMap.WidthBit(i.opcode).Size(i.p.sizeOverride);
    CorrectCode(s.cpu.mem, s.cpu.eip, i);
    CmpEntry(i);
    var p := StepRuns(hv, s, i);
    ComparesOperands(p, s, i, size);
  }

  /** 70 to 7F: a step that goes on at the target when the condition code holds,
      and behind the jump otherwise. */
  lemma StepJumps(hv: Hypervisor, s: State, j: Instruction)
    requires CodeAt(s.cpu.mem, s.cpu.eip, j) && !j.p.twoBytes && 0x70 <= j.opcode <= 0x7F && !j.p.sizeOverride
    ensures var r := Step(Programs.Qx86(hv), s);
            var behind := s.cpu.eip + |j.Bytes()|;
            && (r.Continue? <==> s.gas >= JumpCharge(s))
            && (r.Continue? ==>
                  r.st == s.(gas := s.gas - JumpCharge(s),
                             cpu := s.cpu.(eip := Wrap32(if CcMatches(j.opcode, s.cpu.flags)
                                                         then behind + Signed(j.values[0] % 0x100, SizeByte)
                                                         else behind))))
  {
    hide Lookup, Sane, SaneRow, HasModRM, InstructionBytes, OpcodeMap.Pick, Decodes, JumpCharge, CodeAt, CpuOp,
         Step, Writable, Wrap32, Signed, CcMatches;
    CorrectCode(s.cpu.mem, s.cpu.eip, j);
    JumpEntry(j);
    var q := StepRuns(hv, s, j);
    var v := JumpOperand(q, s, j);
    JumpsIf(s.cpu, q, v);
    WrapAfter(SignedValue(v), s.cpu.eip + q.eipSize);
  }

  /** cmp and a conditional jump behind it: two steps end at the jump's target if
      the relation that its condition code names holds between the operand and the
      register, and behind the jump otherwise; only flags and gas change besides. */
  lemma ComparesAndJumps(hv: Hypervisor, s: State, i: Instruction, j: Instruction)
    requires CodeAt(s.cpu.mem, s.cpu.eip, i) && !i.p.twoBytes && 0x38 <= i.opcode <= 0x39
    requires CodeAt(s.cpu.mem, Wrap32(s.cpu.eip + |i.Bytes()|), j) && !j.p.twoBytes && 0x70 <= j.opcode <= 0x7F
    requires !j.p.sizeOverride
    requires CanRead(s.cpu, i.rm, OpcodeMap.WidthBit(i.opcode).Size(i.p.sizeOverride))
    requires var next := s.(cpu := s.cpu.(eip := Wrap32(s.cpu.eip + |i.Bytes()|)));
             s.gas >= Charge(s, Low, if i.rm.InMemory? then 1 else 0) as int + JumpCharge(next)
    ensures var r := Steps(Programs.Qx86(hv), s, 2);
            var size := OpcodeMap.WidthBit(i.opcode).Size(i.p.sizeOverride);
            var a, b := NumberIn(s.cpu, i.rm, size), GetReg(s.cpu.regs, i.reg, size).Number();
            var behind := s.cpu.eip + |i.Bytes()| + |j.Bytes()|;
            && r.Continue? && r.st == s.(gas := r.st.gas, cpu := s.cpu.(eip := r.st.cpu.eip, flags := r.st.cpu.flags))
            && a < 0x1_0000_0000 && b < 0x1_0000_0000
            && r.st.cpu.eip == Wrap32(if Compare.Relation(j.opcode % 16, a, b, size)
                                      then behind + Signed(j.values[0] % 0x100, SizeByte) else behind)
  {
    hide Lookup, Sane, SaneRow, HasModRM, InstructionBytes, OpcodeMap.Pick, Charge, CodeAt, NumberIn, CanRead, GetReg, Step,
         Compare.Relation, Writable, Wrap32, Signed, CcMatches, Cost;
    CorrectCode(s.cpu.mem, s.cpu.eip, i);
    CorrectCode(s.cpu.mem, Wrap32(s.cpu.eip + |i.Bytes()|), j);
    StepCompares(hv, s, i);
    var t := Step(Programs.Qx86(hv), s).st;
    StepJumps(hv, t, j);
    TwoSteps(hv, s);
    var d := Signed(j.values[0] % 0x100, SizeByte);
    WrapAfter(|j.Bytes()|, s.cpu.eip + |i.Bytes()|);
    WrapAfter(|j.Bytes()| + d, s.cpu.eip + |i.Bytes()|);
  }

  lemma TwoSteps(hv: Hypervisor, s: State)
    requires Step(Programs.Qx86(hv), s).Continue?
    ensures Steps(Programs.Qx86(hv), s, 2) == Step(Programs.Qx86(hv), Step(Programs.Qx86(hv), s).st)
  {
    hide Step;
    var m, t := Programs.Qx86(hv), Step(Programs.Qx86(hv), s).st;
    assert Steps(m, t, 1) == Step(m, t);
  }

  // ---------- add r/m, imm8 ----------

  lemma AddEntry(i: Instruction)
    requires i.Correct() && !i.p.twoBytes && i.opcode == 0x83 && i.reg == 0
    ensures OpcodeMap.IsMixed(i.Entry(), Alu(Add, Native), ImmediateValue, NativeWord)
    ensures Lookup(Index(i.p, i.opcode)).hasModRM
  {
    hide Lookup, Sane, SaneRow, HasModRM, OpcodeMap.IsMixed, OpcodeMap.Pick;
    OpcodeMap.ArithmeticGroups(0, Add);
  }

  /** The sum of an operand and a signed byte, in the operand's width. */
  function SumWithByte(a: nat, value: u32, size: ValueSize): nat {
    (a + Signed(value % 0x100, SizeByte)) % Modulus(size)
  }

  lemma SameSumWithByte(a: nat, value: u32, size: ValueSize)
    ensures Plus(a, Signed(value % 0x100, SizeByte) % Modulus(size), size) == SumWithByte(a, value, size)
  {
    hide Signed;
    SumOfRemainder(a, Signed(value % 0x100, SizeByte), Modulus(size));
  }

  lemma SumOfRemainder(a: nat, x: int, m: nat)
    requires m > 0
    ensures (a + x % m) % m == (a + x) % m
  {
    var q, r := (a + x % m) / m, (a + x % m) % m;
    var k := x / m;
    assert x == k * m + x % m;
    assert a + x == (q + k) * m + r by { Rotate.Distribute(q, k, m); }
    Rotate.DivMod(q + k, r, m);
  }

  lemma AddOperands(slot: Slot, s: State, i: Instruction, size: ValueSize)
    requires i.Correct() && !i.p.twoBytes && i.opcode == 0x83 && i.reg == 0 && Decodes(slot, s, i)
    requires size == Native.Size(i.p.sizeOverride) && CanRead(s.cpu, i.rm, size)
    ensures slot.op == Alu(Add, Native) && slot.sizeOverride == i.p.sizeOverride
    ensures slot.eipSize == |i.Bytes()| && slot.gasCost == Charge(s, Low, if i.rm.InMemory? then 1 else 0)
    ensures Stands(slot.args[0], ModRM, size, i.opcode, i.reg, i.rm, 0)
    ensures slot.args[1].location == Immediate(Byte(i.values[1] % 0x100))
  {
    hide Lookup, Sane, SaneRow, HasModRM, InstructionBytes, OpcodeMap.Pick, Price, OperandAt, Wrap64, Charge, CanRead;
    AddEntry(i);
    var o := i.Entry();
    assert Stands(slot.args[0], o.source[0], o.size[0].ToFixed(i.p.sizeOverride), i.opcode, i.reg, i.rm, i.values[0]);
    assert Stands(slot.args[1], o.source[1], o.size[1].ToFixed(i.p.sizeOverride), i.opcode, i.reg, i.rm, i.values[1]);
    assert Stands(slot.args[2], o.source[2], o.size[2].ToFixed(i.p.sizeOverride), i.opcode, i.reg, i.rm, i.values[2]);
    ChargeIs(s, o, if i.rm.InMemory? then 1 else 0);
  }

  /** Nothing but the operand, eip and the flags has changed. */
  ghost predicate OnlyOperandChanged(c: Cpu, t: Cpu, rm: RegMem, size: ValueSize) {
    && t.host == c.host
    && match rm
       case InRegister(r) => t.mem == c.mem && OnlyRegisterChanged(c.regs, t.regs, r, size)
       case InMemory(m) => t.regs == c.regs && OnlyBytesChanged(c.mem, t.mem, AddressOf(c.regs, m), SizeInBytes(size))
  }

  /** The operand after a store to it. */
  lemma OperandHolds(c: Cpu, t: Cpu, arg: OpArgument, opcode: u8, reg: u3, rm: RegMem, size: ValueSize, n: nat)
    requires IsWidth(size) && Stands(arg, ModRM, size, opcode, reg, rm, 0) && CanRead(c, rm, size)
    requires OnlyPlaceChanged(c, t, arg.location) && Reads(t, arg.location, size, n)
    ensures t.eip == c.eip && OnlyOperandChanged(c, t, rm, size) && CanRead(t, rm, size) && NumberIn(t, rm, size) == n
  {
    OperandIs(c, arg, opcode, reg, rm, size);
    OperandIs(t, arg, opcode, reg, rm, size);
    hide AddressOf, GetArgLea, GetArg, LittleEndian, GetReg, OnlyRegisterChanged, Stands, NumberIn;
  }

  lemma ByteReadsSigned(c: Cpu, loc: ArgLocation, value: u32, size: ValueSize)
    requires loc == Immediate(Byte(value % 0x100)) && (size == SizeWord || size == SizeDword)
    ensures ReadsSigned(c, loc, size, Signed(value % 0x100, SizeByte) % Modulus(size))
  {
    hide Signed;
  }

  /** What the decoded add does. */
  lemma AddsByte(slot: Slot, s: State, i: Instruction, size: ValueSize)
    requires size == Native.Size(slot.sizeOverride) && CanRead(s.cpu, i.rm, size)
    requires Stands(slot.args[0], ModRM, size, i.opcode, i.reg, i.rm, 0)
    requires slot.args[1].location == Immediate(Byte(i.values[1] % 0x100))
    ensures var r := CpuOp(s.cpu, Alu(Add, Native), slot);
            && (r.Done? <==> i.rm.InMemory? ==> AddressOf(s.cpu.regs, i.rm.m) >= WRITEABLE_MEMORY)
            && (r.Done? ==>
                  && r.value.eip == s.cpu.eip && OnlyOperandChanged(s.cpu, r.value, i.rm, size) && CanRead(r.value, i.rm, size)
                  && NumberIn(r.value, i.rm, size) == SumWithByte(NumberIn(s.cpu, i.rm, size), i.values[1], size))
  {
    hide CpuOp, Stands, Reads, ReadsSigned, NumberIn, AddressOf, OnlyOperandChanged, SumWithByte, Plus,
         GetArgLea, OnlyPlaceChanged, FlagsOf, Inside, Signed;
    var a := NumberIn(s.cpu, i.rm, size);
    var b := Signed(i.values[1] % 0x100, SizeByte) % Modulus(size);
    var r := CpuOp(s.cpu, Alu(Add, Native), slot);
    OperandIs(s.cpu, slot.args[0], i.opcode, i.reg, i.rm, size);
    ByteReadsSigned(s.cpu, slot.args[1].location, i.values[1], size);
    Adds(s.cpu, slot, Native, a, b);
    SameSumWithByte(a, i.values[1], size);
    if r.Done? {
      OperandHolds(s.cpu, r.value, slot.args[0], i.opcode, i.reg, i.rm, size, Plus(a, b, size));
    }
  }

  /** 83 /0: a step adds the signed byte to the operand. */
  lemma StepAdds(hv: Hypervisor, s: State, i: Instruction)
    requires CodeAt(s.cpu.mem, s.cpu.eip, i) && !i.p.twoBytes && i.opcode == 0x83 && i.reg == 0
    requires CanRead(s.cpu, i.rm, Native.Size(i.p.sizeOverride))
    ensures var r := Step(Programs.Qx86(hv), s);
            var size := Native.Size(i.p.sizeOverride);
            var price := Charge(s, Low, if i.rm.InMemory? then 1 else 0);
            && (r.Continue? <==>
                  s.gas >= price && (i.rm.InMemory? ==> AddressOf(s.cpu.regs, i.rm.m) >= WRITEABLE_MEMORY))
            && (r.Continue? ==>
                  && r.st == s.(gas := s.gas - price, cpu := r.st.cpu) && r.st.cpu.eip == Wrap32(s.cpu.eip + |i.Bytes()|)
                  && OnlyOperandChanged(s.cpu, r.st.cpu, i.rm, size) && CanRead(r.st.cpu, i.rm, size)
                  && NumberIn(r.st.cpu, i.rm, size) == SumWithByte(NumberIn(s.cpu, i.rm, size), i.values[1], size))
  {
    hide Lookup, Sane, SaneRow, HasModRM, InstructionBytes, OpcodeMap.Pick, Decodes, Charge, CodeAt, CpuOp, SumWithByte,
         Step, Writable, Wrap32, AddressOf, Stands, LittleEndian, Inside, OnlyRegisterChanged, OnlyBytesChanged, GetReg;
    CorrectCode(s.cpu.mem, s.cpu.eip, i);
    AddEntry(i);
    var size := Native.Size(i.p.sizeOverride);
    var p := StepRuns(hv, s, i);
    AddOperands(p, s, i, size);
    AddsByte(p, s, i, size);
  }
}

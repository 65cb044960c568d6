// Which instruction an opcode byte is, by the encoding scheme of the architecture
// (Appendix A of the Intel SDM, volume 2): operation, operands, width and price.

module OpcodeMap {
  import Words
  import opened Structs
  import opened VMState
  import opened Opcodes

  /** The entry of a table index for a register field. */
  function At(i: int, reg: Words.u3): Opcode {
    Pick(Lookup(i), reg)
  }

  function Pick(row: OpcodeProperties, reg: Words.u3): Opcode {
    if row.hasModRM then row.opcodes[reg] else row.opcodes[0]
  }

  /** Which part of the table an index is in. */
  lemma Rows(i: int)
    ensures 0x00 <= i <= 0x05 ==> Lookup(i) == AluForm(Add, i)
    ensures 0x10 <= i <= 0x15 ==> Lookup(i) == AluForm(Adc, i - 0x10)
    ensures 0x28 <= i <= 0x2D ==> Lookup(i) == AluForm(Sub, i - 0x28)
    ensures 0x38 <= i <= 0x3D ==> Lookup(i) == AluForm(Cmp, i - 0x38)
    ensures 0x50 <= i <= 0x61 || i in {0x68, 0x6A, 0x8F, 0x9C, 0x9D} ==> Lookup(i) == StackRow(i)
    ensures 0x88 <= i <= 0x8B || 0xA0 <= i <= 0xA3 || 0xB0 <= i <= 0xBF || i in {0xC6, 0xC7} ==> Lookup(i) == MovRow(i)
    ensures 0x70 <= i <= 0x7F || 0x180 <= i <= 0x18F || i in {0xE3, 0xE8, 0xE9, 0xEB} ==> Lookup(i) == JumpRow(i)
    ensures i in {0xC2, 0xC3, 0xCC, 0xCD, 0xF4, 0xFF} ==> Lookup(i) == ControlRow(i)
    ensures 0xA4 <= i <= 0xAF ==> Lookup(i) == OtherRow(i)
    ensures i in {0x27, 0x80, 0x81, 0x83, 0x8D, 0x90, 0xF0, 0xF6, 0xF7, 0xFC, 0xFD} ==> Lookup(i) == OtherRow(i)
    ensures i in {0xC0, 0xC1, 0xD0, 0xD1, 0xD2, 0xD3} ==> Lookup(i) == OtherRow(i)
  {
    hide AluForm, StackRow, MovRow, JumpRow, ControlRow, OtherRow;
  }

  /** One or two operands of one width each, at this price. */
  predicate Is(o: Opcode, op: Op, a: ArgSource, b: ArgSource, size: OpcodeValueSize, gas: GasTier, behavior: PipelineBehavior) {
    && o.op == op && o.source == [a, b, SourceNone] && o.gas == gas && o.behavior == behavior
    && (a != SourceNone ==> o.size[0] == size) && (b != SourceNone ==> o.size[1] == size)
  }

  /** The low bit of an opcode tells bytes from words and dwords. */
  function WidthBit(i: int): OpWidth {
    if i % 2 == 0 then Narrow else Native
  }

  function SizeBit(i: int): OpcodeValueSize {
    if i % 2 == 0 then Fixed(SizeByte) else NativeWord
  }

  /** The arithmetic operations by their number; the others are not modelled. */
  predicate Numbered(k: Words.u3, kind: AluKind) {
    match kind
    case Add => k == 0
    case Adc => k == 2
    case Sub => k == 5
    case Cmp => k == 7
  }

  lemma ArithmeticForms(kind: AluKind, form: int, reg: Words.u3)
    requires 0 <= form < 6
    ensures AluForm(kind, form).hasModRM <==> form < 4
    ensures Is(Pick(AluForm(kind, form), reg), Alu(kind, WidthBit(form)),
               if form >= 4 then HardcodedRegister(AL) else if form / 2 == 0 then ModRM else ModRMReg,
               if form >= 4 then ImmediateValue else if form / 2 == 0 then ModRMReg else ModRM,
               SizeBit(form), Low, Plain)
  {
    hide Sane, SaneRow;
  }

  /** The second bit tells which operand is the register; 4 and 5 are accumulator
      and immediate. */
  lemma ArithmeticBlock(k: Words.u3, kind: AluKind, form: int, reg: Words.u3)
    requires Numbered(k, kind) && 0 <= form < 6
    ensures Lookup(8 * k + form).hasModRM <==> form < 4
    ensures Is(At(8 * k + form, reg), Alu(kind, WidthBit(form)),
               if form >= 4 then HardcodedRegister(AL) else if form / 2 == 0 then ModRM else ModRMReg,
               if form >= 4 then ImmediateValue else if form / 2 == 0 then ModRMReg else ModRM,
               SizeBit(form), Low, Plain)
  {
    hide Lookup, Sane, SaneRow, AluForm, Pick, Is;
    Rows(8 * k + form);
    ArithmeticForms(kind, form, reg);
  }

  lemma GroupMember(w: OpWidth, rm: ArgSpec, imm: ArgSpec, k: Words.u3, kind: AluKind)
    requires Numbered(k, kind) && ArgBytes(rm.0, rm.1) + ArgBytes(imm.0, imm.1) <= 4
    ensures AluGroup(w, rm, imm).hasModRM && Pick(AluGroup(w, rm, imm), k) == Define(Alu(kind, w), rm, imm, Low, Plain)
  {
    hide Sane, SaneRow, Define;
  }

  /** The same numbers select the operation with an immediate. */
  lemma ArithmeticGroups(k: Words.u3, kind: AluKind)
    requires Numbered(k, kind)
    ensures Lookup(0x80).hasModRM && Lookup(0x81).hasModRM && Lookup(0x83).hasModRM
    ensures Is(At(0x80, k), Alu(kind, Narrow), ModRM, ImmediateValue, Fixed(SizeByte), Low, Plain)
    ensures Is(At(0x81, k), Alu(kind, Native), ModRM, ImmediateValue, NativeWord, Low, Plain)
    ensures IsMixed(At(0x83, k), Alu(kind, Native), ImmediateValue, NativeWord)
  {
    hide Lookup, Sane, SaneRow, AluGroup, Pick, Numbered;
    Rows(0x80);
    Rows(0x81);
    Rows(0x83);
    GroupMember(Narrow, RM8, IMM8, k, kind);
    GroupMember(Native, RMW, IMMW, k, kind);
    GroupMember(Native, RMW, IMM8, k, kind);
  }

  /** A second operand of one byte. */
  predicate IsMixed(o: Opcode, op: Op, b: ArgSource, size: OpcodeValueSize) {
    && o.op == op && o.source == [ModRM, b, SourceNone] && o.size[0] == size && o.size[1] == Fixed(SizeByte)
    && o.gas == Low && o.behavior == Plain
  }

  /** 88 to 8B: the second bit tells which operand is the register. */
  lemma MovesRegMem(form: int, reg: Words.u3)
    requires 0 <= form < 4
    ensures Lookup(0x88 + form).hasModRM
    ensures Is(At(0x88 + form, reg), Mov, if form < 2 then ModRM else ModRMReg, if form < 2 then ModRMReg else ModRM,
               SizeBit(form), VeryLow, Plain)
  {
    hide Lookup, Sane, SaneRow;
    Rows(0x88 + form);
  }

  /** A0 to A3: accumulator and an absolute address. */
  lemma MovesAbsolute(form: int, reg: Words.u3)
    requires 0 <= form < 4
    ensures Is(At(0xA0 + form, reg), Mov, if form < 2 then HardcodedRegister(EAX) else ImmediateAddress,
               if form < 2 then ImmediateAddress else HardcodedRegister(EAX), SizeBit(form), VeryLow, Plain)
  {
    hide Lookup, Sane, SaneRow;
    Rows(0xA0 + form);
  }

  /** B0 to BF: the low three bits are the register. */
  lemma MovesImmediate(r: int, reg: Words.u3)
    requires 0 <= r < 8
    ensures Is(At(0xB0 + r, reg), Mov, RegisterSuffix, ImmediateValue, Fixed(SizeByte), VeryLow, Plain)
    ensures Is(At(0xB8 + r, reg), Mov, RegisterSuffix, ImmediateValue, NativeWord, VeryLow, Plain)
  {
    hide Lookup, Sane, SaneRow;
    Rows(0xB0 + r);
    Rows(0xB8 + r);
  }

  lemma MovesToRegMem(reg: Words.u3)
    ensures Is(At(0xC6, reg), Mov, ModRM, ImmediateValue, Fixed(SizeByte), VeryLow, Plain)
    ensures Is(At(0xC7, reg), Mov, ModRM, ImmediateValue, NativeWord, VeryLow, Plain)
    ensures Is(At(0x8D, reg), Lea, ModRMReg, ModRM, NativeWord, Low, Plain)
  {
    hide Lookup, Sane, SaneRow;
    Rows(0xC6);
    Rows(0xC7);
    Rows(0x8D);
  }

  /** 50 to 5F: the low three bits are the register. */
  lemma StackRegisters(r: int, reg: Words.u3)
    requires 0 <= r < 8
    ensures Is(At(0x50 + r, reg), PushArg, RegisterSuffix, SourceNone, NativeWord, VeryLow, Plain)
    ensures Is(At(0x58 + r, reg), PopArg, RegisterSuffix, SourceNone, NativeWord, VeryLow, Plain)
  {
    hide Lookup, Sane, SaneRow;
    Rows(0x50 + r);
    Rows(0x58 + r);
  }

  lemma StackOperands(reg: Words.u3)
    ensures Is(At(0x68, reg), PushArg, ImmediateValue, SourceNone, NativeWord, VeryLow, Plain)
    ensures Is(At(0x6A, reg), PushArg, ImmediateValue, SourceNone, Fixed(SizeByte), VeryLow, Plain)
    ensures Is(At(0x8F, 0), PopArg, ModRM, SourceNone, NativeWord, VeryLow, Plain)
  {
    hide Lookup, Sane, SaneRow;
    Rows(0x68);
    Rows(0x6A);
    Rows(0x8F);
  }

  lemma StackAll(reg: Words.u3)
    ensures Is(At(0x60, reg), PushAll, SourceNone, SourceNone, NativeWord, Low, Plain)
    ensures Is(At(0x61, reg), PopAll, SourceNone, SourceNone, NativeWord, Low, Plain)
  {
    hide Lookup, Sane, SaneRow;
    Rows(0x60);
    Rows(0x61);
  }

  lemma StackFlags(reg: Words.u3)
    ensures Is(At(0x9C, reg), PushFlags, SourceNone, SourceNone, NativeWord, Low, Plain)
    ensures Is(At(0x9D, reg), PopFlags, SourceNone, SourceNone, NativeWord, Low, Plain)
  {
    hide Lookup, Sane, SaneRow;
    Rows(0x9C);
    Rows(0x9D);
  }

  /** The low four bits of 70 to 7F and of 0F 80 to 0F 8F are the condition code. */
  lemma Conditions(cc: int, reg: Words.u3)
    requires 0 <= cc < 16
    ensures !Lookup(0x70 + cc).hasModRM && !Lookup(0x180 + cc).hasModRM
    ensures Is(At(0x70 + cc, reg), JumpIf, JumpRel, SourceNone, Fixed(SizeByte), Low, Unpredictable)
    ensures Is(At(0x180 + cc, reg), JumpIf, JumpRel, SourceNone, NativeWord, Low, Unpredictable)
  {
    hide Lookup, Sane, SaneRow;
    Rows(0x70 + cc);
    Rows(0x180 + cc);
  }

  lemma RelativeJumps(reg: Words.u3)
    ensures Is(At(0xE3, reg), JumpIfEcxZero, JumpRel, SourceNone, Fixed(SizeByte), Low, Unpredictable)
    ensures Is(At(0xEB, reg), JumpRelative, JumpRel, SourceNone, Fixed(SizeByte), Low, RelativeJump)
  {
    hide Lookup, Sane, SaneRow;
    Rows(0xE3);
    Rows(0xEB);
  }

  lemma RelativeCalls(reg: Words.u3)
    ensures Is(At(0xE9, reg), JumpRelative, JumpRel, SourceNone, NativeWord, Low, Unpredictable)
    ensures Is(At(0xE8, reg), CallRelative, JumpRel, SourceNone, NativeWord, Low, RelativeJump)
  {
    hide Lookup, Sane, SaneRow;
    Rows(0xE9);
    Rows(0xE8);
  }

  lemma IndirectJumps()
    ensures Is(At(0xFF, 2), CallAbsolute, ModRM, SourceNone, NativeWord, Low, Unpredictable)
    ensures Is(At(0xFF, 4), JumpAbsolute, ModRM, SourceNone, NativeWord, Moderate, Unpredictable)
    ensures Is(At(0xFF, 6), PushArg, ModRM, SourceNone, NativeWord, VeryLow, Plain)
  {
    hide Lookup, Sane, SaneRow;
    Rows(0xFF);
  }

  lemma Returns(reg: Words.u3)
    ensures Is(At(0xC2, reg), Ret, ImmediateValue, SourceNone, Fixed(SizeWord), Low, Unpredictable)
    ensures Is(At(0xC3, reg), Ret, SourceNone, SourceNone, NativeWord, Low, Unpredictable)
  {
    hide Lookup, Sane, SaneRow;
    Rows(0xC2);
    Rows(0xC3);
  }

  /** Movs, cmps, stos, lods and scas, in bytes and in words or dwords. */
  lemma StringMoves(bit: int, reg: Words.u3)
    requires 0 <= bit < 2
    ensures Is(At(0xA4 + bit, reg), Movs(WidthBit(bit)), SourceNone, SourceNone, NativeWord, Low, Plain)
  {
    hide Lookup, Sane, SaneRow;
    Rows(0xA4 + bit);
  }

  lemma StringComparisons(bit: int, reg: Words.u3)
    requires 0 <= bit < 2
    ensures Is(At(0xA6 + bit, reg), Cmps(WidthBit(bit)), SourceNone, SourceNone, NativeWord, Low, Plain)
  {
    hide Lookup, Sane, SaneRow;
    Rows(0xA6 + bit);
  }

  lemma StringStores(bit: int, reg: Words.u3)
    requires 0 <= bit < 2
    ensures Is(At(0xAA + bit, reg), Stos(WidthBit(bit)), SourceNone, SourceNone, NativeWord, Low, Plain)
  {
    hide Lookup, Sane, SaneRow;
    Rows(0xAA + bit);
  }

  lemma StringLoads(bit: int, reg: Words.u3)
    requires 0 <= bit < 2
    ensures Is(At(0xAC + bit, reg), Lods(WidthBit(bit)), SourceNone, SourceNone, NativeWord, Low, Plain)
  {
    hide Lookup, Sane, SaneRow;
    Rows(0xAC + bit);
  }

  lemma StringScans(bit: int, reg: Words.u3)
    requires 0 <= bit < 2
    ensures Is(At(0xAE + bit, reg), Scas(WidthBit(bit)), SourceNone, SourceNone, NativeWord, Low, Plain)
  {
    hide Lookup, Sane, SaneRow;
    Rows(0xAE + bit);
  }

  lemma RotateMember(w: OpWidth, rm: ArgSpec, count: ArgSpec, left: bool)
    requires ArgBytes(rm.0, rm.1) + ArgBytes(count.0, count.1) <= 4
    ensures Pick(RotateGroup(w, rm, count), if left then 2 else 3)
         == Define(if left then Rcl(w) else Rcr(w), rm, count, Low, Plain)
  {
    hide Sane, SaneRow, Define;
  }

  /** Rotates by an immediate, by one and by CL. */
  lemma Rotates(bit: int, left: bool)
    requires 0 <= bit < 2
    ensures var op, reg: Words.u3 := if left then Rcl(WidthBit(bit)) else Rcr(WidthBit(bit)), if left then 2 else 3;
            && IsMixed(At(0xC0 + bit, reg), op, ImmediateValue, SizeBit(bit))
            && IsMixed(At(0xD0 + bit, reg), op, Literal(Byte(1)), SizeBit(bit))
            && IsMixed(At(0xD2 + bit, reg), op, HardcodedRegister(CL), SizeBit(bit))
  {
    hide Lookup, Sane, SaneRow, RotateGroup, Pick;
    Rows(0xC0 + bit);
    Rows(0xD0 + bit);
    Rows(0xD2 + bit);
    var w, rm := WidthBit(bit), (ModRM, SizeBit(bit));
    RotateMember(w, rm, IMM8, left);
    RotateMember(w, rm, ONE, left);
    RotateMember(w, rm, COUNT, left);
  }

  lemma Products(bit: int)
    requires 0 <= bit < 2
    ensures Is(At(0xF6 + bit, 4), Mul(WidthBit(bit)), ModRM, SourceNone, SizeBit(bit), Low, Plain)
    ensures Is(At(0xF6 + bit, 6), Div(WidthBit(bit)), ModRM, SourceNone, SizeBit(bit), Low, Plain)
  {
    hide Lookup, Sane, SaneRow;
    Rows(0xF6 + bit);
  }

  lemma NoOps(reg: Words.u3)
    ensures Is(At(0x90, reg), Nop, SourceNone, SourceNone, NativeWord, TierNone, Plain)
    ensures Is(At(0xF0, reg), Nop, SourceNone, SourceNone, NativeWord, TierNone, Plain)
    ensures Is(At(0x27, reg), Daa, SourceNone, SourceNone, NativeWord, Low, Plain)
  {
    hide Lookup, Sane, SaneRow;
    Rows(0x90);
    Rows(0xF0);
    Rows(0x27);
  }

  lemma Stops(reg: Words.u3)
    ensures Is(At(0xF4, reg), Hlt, SourceNone, SourceNone, NativeWord, TierNone, UnpredictableNoGas)
  {
    hide Lookup, Sane, SaneRow;
    Rows(0xF4);
  }

  lemma Interrupts(reg: Words.u3)
    ensures Is(At(0xCC, reg), Interrupt, Literal(Byte(3)), SourceNone, Fixed(SizeByte), Moderate, Unpredictable)
    ensures Is(At(0xCD, reg), Interrupt, ImmediateValue, SourceNone, Fixed(SizeByte), Moderate, Unpredictable)
  {
    hide Lookup, Sane, SaneRow;
    Rows(0xCC);
    Rows(0xCD);
  }

  lemma Directions(reg: Words.u3)
    ensures Is(At(0xFC, reg), ClearDirection, SourceNone, SourceNone, NativeWord, VeryLow, Plain)
    ensures Is(At(0xFD, reg), SetDirection, SourceNone, SourceNone, NativeWord, VeryLow, Plain)
  {
    hide Lookup, Sane, SaneRow;
    Rows(0xFC);
    Rows(0xFD);
  }

  /** The prices of a schedule stand in the order in which the tiers are declared. */
  lemma TiersInOrder(costs: Costs)
    ensures costs == [Cost(costs, TierNone), Cost(costs, VeryLow), Cost(costs, Low), Cost(costs, Moderate), Cost(costs, High),
                      Cost(costs, ConditionalBranch), Cost(costs, MemoryAccess), Cost(costs, WriteableMemoryExec),
                      Cost(costs, ModRMSurcharge)]
  {
  }
}

// What the decoder knows about each opcode, and the table for the modelled subset.

module Opcodes {
  import Words
  import opened Structs
  import opened VMState

  datatype ArgSource =
    | SourceNone
    | ModRM
    | ModRMReg
    | ImmediateValue
    | ImmediateAddress
    | RegisterSuffix
    | JumpRel
    | Literal(value: SizedValue)
    | HardcodedRegister(register: Words.u3)

  datatype OpcodeValueSize = Fixed(size: ValueSize) | NativeWord {
    function ToFixed(sizeOverride: bool): ValueSize {
      match this
      case Fixed(f) => f
      case NativeWord => if sizeOverride then SizeWord else SizeDword
    }
  }

  datatype PipelineBehavior = Plain | RelativeJump | Unpredictable | UnpredictableNoGas

  /** Operand width of an operation: bytes, or words and dwords by the size prefix. */
  datatype OpWidth = Narrow | Native {
    function Size(sizeOverride: bool): ValueSize {
      if Narrow? then SizeByte else if sizeOverride then SizeWord else SizeDword
    }
  }

  datatype AluKind = Add | Adc | Sub | Cmp

  /** The functions the opcode table points to. */
  datatype Op =
    | Nop | Hlt | Undefined
    | Mov | Lea | PushArg | PopArg | PushAll | PopAll | PushFlags | PopFlags
    | Alu(kind: AluKind, width: OpWidth) | Daa
    | Rcl(width: OpWidth) | Rcr(width: OpWidth) | Mul(width: OpWidth) | Div(width: OpWidth)
    | JumpRelative | JumpAbsolute | JumpIf | JumpIfEcxZero | CallRelative | CallAbsolute | Ret
    | SetDirection | ClearDirection
    | Movs(width: OpWidth) | Cmps(width: OpWidth) | Stos(width: OpWidth) | Lods(width: OpWidth) | Scas(width: OpWidth)
    | Interrupt | Repe | Repne

  type Sources = s: seq<ArgSource> | |s| == 3 witness [SourceNone, SourceNone, SourceNone]
  type Sizes = s: seq<OpcodeValueSize> | |s| == 3 witness [NativeWord, NativeWord, NativeWord]

  datatype Opcode = Opcode(op: Op, source: Sources, size: Sizes, gas: GasTier, behavior: PipelineBehavior)

  /** An opcode byte: the Mod R/M reg field selects one of eight. */
  type EightOpcodes = s: seq<Opcode> | |s| == 8 witness seq(8, i => UNDEFINED)
  datatype OpcodeProperties = OpcodeProperties(hasModRM: bool, opcodes: EightOpcodes)

  /** Opcodes are indexed by their last byte, with 0x100 added after 0x0F. The
      last index is missing from the table. */
  const OPCODE_TABLE_SIZE := 0x1FF

  type Table = int -> OpcodeProperties

  const UNDEFINED := Opcode(Undefined, [SourceNone, SourceNone, SourceNone],
                            [Fixed(SizeNone), Fixed(SizeNone), Fixed(SizeNone)], TierNone, Unpredictable)

  // ---------- what the rest of the machine relies on in a table ----------

  /** Functions that leave eip to the main loop and never stop the machine. */
  predicate KeepsEip(op: Op) {
    match op
    case Hlt => false
    case Undefined => false
    case JumpRelative => false
    case JumpAbsolute => false
    case JumpIf => false
    case JumpIfEcxZero => false
    case CallRelative => false
    case CallAbsolute => false
    case Ret => false
    case Interrupt => false
    case Repe => false
    case Repne => false
    case _ => true
  }

  /** The most bytes an operand can take from the instruction stream. */
  function ArgBytes(source: ArgSource, size: OpcodeValueSize): nat {
    match source
    case ImmediateAddress => 4
    case ImmediateValue => ImmediateBytes(size)
    case JumpRel => ImmediateBytes(size)
    case _ => 0
  }

  function ImmediateBytes(size: OpcodeValueSize): nat {
    match size
    case NativeWord => 4
    case Fixed(SizeByte) => 1
    case Fixed(SizeWord) => 2
    case Fixed(SizeDword) => 4
    case _ => 0
  }

  predicate TakesNoArgs(o: Opcode) {
    o.source == [SourceNone, SourceNone, SourceNone]
  }

  /** An entry of a usable table: the pipeline behaviour tells the truth about
      eip, direct jumps carry their displacement, only no-ops and ways to stop
      are free, no surcharge is a base cost, and the operands fit the instruction window. */
  predicate Sane(o: Opcode, hasModRM: bool) {
    && !o.op.Repe? && !o.op.Repne?
    && (o.behavior == Plain ==> KeepsEip(o.op))
    && (o.behavior == RelativeJump ==> (o.op.JumpRelative? || o.op.CallRelative?) && o.source[0] == JumpRel)
    && o.gas in {TierNone, VeryLow, Low, Moderate, High}
    && (o.gas == TierNone ==>
          o.op.Hlt? || o.op.Undefined? || (o.op.Nop? && o.behavior == Plain && !hasModRM && TakesNoArgs(o)))
    && ArgBytes(o.source[0], o.size[0]) + ArgBytes(o.source[1], o.size[1]) + ArgBytes(o.source[2], o.size[2]) <= 4
  }

  predicate SaneRow(r: OpcodeProperties) {
    forall i :: 0 <= i < 8 ==> Sane(r.opcodes[i], r.hasModRM)
  }

  ghost predicate SaneTable(table: Table) {
    forall i :: 0 <= i < OPCODE_TABLE_SIZE ==> SaneRow(table(i))
  }

  // ---------- the table ----------

  // Opcodes that are not modelled stay undefined, as bytes without a
  // definition do in the original.

  type ArgSpec = (ArgSource, OpcodeValueSize)

  const NOTHING: ArgSpec := (SourceNone, Fixed(SizeNone))
  const RM8: ArgSpec := (ModRM, Fixed(SizeByte))
  const RMW: ArgSpec := (ModRM, NativeWord)
  const REG8: ArgSpec := (ModRMReg, Fixed(SizeByte))
  const REGW: ArgSpec := (ModRMReg, NativeWord)
  const IMM8: ArgSpec := (ImmediateValue, Fixed(SizeByte))
  const IMM16: ArgSpec := (ImmediateValue, Fixed(SizeWord))
  const IMMW: ArgSpec := (ImmediateValue, NativeWord)
  const OFFS8: ArgSpec := (ImmediateAddress, Fixed(SizeByte))
  const OFFSW: ArgSpec := (ImmediateAddress, NativeWord)
  const SUFFIX8: ArgSpec := (RegisterSuffix, Fixed(SizeByte))
  const SUFFIXW: ArgSpec := (RegisterSuffix, NativeWord)
  const ACC8: ArgSpec := (HardcodedRegister(AL), Fixed(SizeByte))
  const ACCW: ArgSpec := (HardcodedRegister(EAX), NativeWord)
  const COUNT: ArgSpec := (HardcodedRegister(CL), Fixed(SizeByte))
  const ONE: ArgSpec := (Literal(Byte(1)), Fixed(SizeByte))
  const REL8: ArgSpec := (JumpRel, Fixed(SizeByte))
  const RELW: ArgSpec := (JumpRel, NativeWord)

  function Define(op: Op, a: ArgSpec, b: ArgSpec, gas: GasTier, behavior: PipelineBehavior): Opcode {
    Opcode(op, [a.0, b.0, SourceNone], [a.1, b.1, Fixed(SizeNone)], gas, behavior)
  }

  predicate UsesModRM(source: ArgSource) {
    source.ModRM? || source.ModRMReg?
  }

  predicate HasModRM(o: Opcode) {
    UsesModRM(o.source[0]) || UsesModRM(o.source[1]) || UsesModRM(o.source[2])
  }

  /** One definition for the whole opcode byte. */
  function Whole(o: Opcode): (r: OpcodeProperties)
    requires Sane(o, HasModRM(o))
    ensures SaneRow(r)
  {
    OpcodeProperties(HasModRM(o), if HasModRM(o) then [o, o, o, o, o, o, o, o]
                     else [o, UNDEFINED, UNDEFINED, UNDEFINED, UNDEFINED, UNDEFINED, UNDEFINED, UNDEFINED])
  }

  function Group(a: Opcode, b: Opcode, c: Opcode, d: Opcode, e: Opcode, f: Opcode, g: Opcode, h: Opcode)
    : (r: OpcodeProperties)
    requires Sane(a, true) && Sane(b, true) && Sane(c, true) && Sane(d, true)
    requires Sane(e, true) && Sane(f, true) && Sane(g, true) && Sane(h, true)
    ensures SaneRow(r)
  {
    OpcodeProperties(true, [a, b, c, d, e, f, g, h])
  }

  function AluForm(kind: AluKind, form: int): (r: OpcodeProperties)
    ensures SaneRow(r)
  {
    match form
    case 0 => Whole(Define(Alu(kind, Narrow), RM8, REG8, Low, Plain))
    case 1 => Whole(Define(Alu(kind, Native), RMW, REGW, Low, Plain))
    case 2 => Whole(Define(Alu(kind, Narrow), REG8, RM8, Low, Plain))
    case 3 => Whole(Define(Alu(kind, Native), REGW, RMW, Low, Plain))
    case 4 => Whole(Define(Alu(kind, Narrow), ACC8, IMM8, Low, Plain))
    case _ => Whole(Define(Alu(kind, Native), ACCW, IMMW, Low, Plain))
  }

  function AluGroup(w: OpWidth, rm: ArgSpec, imm: ArgSpec): (r: OpcodeProperties)
    requires ArgBytes(rm.0, rm.1) + ArgBytes(imm.0, imm.1) <= 4
    ensures SaneRow(r)
  {
    Group(Define(Alu(Add, w), rm, imm, Low, Plain), UNDEFINED, Define(Alu(Adc, w), rm, imm, Low, Plain), UNDEFINED,
          UNDEFINED, Define(Alu(Sub, w), rm, imm, Low, Plain), UNDEFINED, Define(Alu(Cmp, w), rm, imm, Low, Plain))
  }

  function RotateGroup(w: OpWidth, rm: ArgSpec, count: ArgSpec): (r: OpcodeProperties)
    requires ArgBytes(rm.0, rm.1) + ArgBytes(count.0, count.1) <= 4
    ensures SaneRow(r)
  {
    Group(UNDEFINED, UNDEFINED, Define(Rcl(w), rm, count, Low, Plain), Define(Rcr(w), rm, count, Low, Plain),
          UNDEFINED, UNDEFINED, UNDEFINED, UNDEFINED)
  }

  function MulDivGroup(w: OpWidth, rm: ArgSpec): (r: OpcodeProperties)
    requires ArgBytes(rm.0, rm.1) <= 4
    ensures SaneRow(r)
  {
    Group(UNDEFINED, UNDEFINED, UNDEFINED, UNDEFINED, Define(Mul(w), rm, NOTHING, Low, Plain), UNDEFINED,
          Define(Div(w), rm, NOTHING, Low, Plain), UNDEFINED)
  }

  function StringRow(op: Op): (r: OpcodeProperties)
    requires op.Movs? || op.Cmps? || op.Stos? || op.Lods? || op.Scas?
    ensures SaneRow(r)
  {
    Whole(Define(op, NOTHING, NOTHING, Low, Plain))
  }

  function MovRow(i: int): (r: OpcodeProperties)
    ensures SaneRow(r)
  {
    match i
    case 0x88 => Whole(Define(Mov, RM8, REG8, VeryLow, Plain))
    case 0x89 => Whole(Define(Mov, RMW, REGW, VeryLow, Plain))
    case 0x8A => Whole(Define(Mov, REG8, RM8, VeryLow, Plain))
    case 0x8B => Whole(Define(Mov, REGW, RMW, VeryLow, Plain))
    case 0xA0 => Whole(Define(Mov, ACC8, OFFS8, VeryLow, Plain))
    case 0xA1 => Whole(Define(Mov, ACCW, OFFSW, VeryLow, Plain))
    case 0xA2 => Whole(Define(Mov, OFFS8, ACC8, VeryLow, Plain))
    case 0xA3 => Whole(Define(Mov, OFFSW, ACCW, VeryLow, Plain))
    case 0xC6 => Whole(Define(Mov, RM8, IMM8, VeryLow, Plain))
    case 0xC7 => Whole(Define(Mov, RMW, IMMW, VeryLow, Plain))
    case _ => if i < 0xB8 then Whole(Define(Mov, SUFFIX8, IMM8, VeryLow, Plain))
              else Whole(Define(Mov, SUFFIXW, IMMW, VeryLow, Plain))
  }

  function StackRow(i: int): (r: OpcodeProperties)
    ensures SaneRow(r)
  {
    match i
    case 0x60 => Whole(Define(PushAll, NOTHING, NOTHING, Low, Plain))
    case 0x61 => Whole(Define(PopAll, NOTHING, NOTHING, Low, Plain))
    case 0x68 => Whole(Define(PushArg, IMMW, NOTHING, VeryLow, Plain))
    case 0x6A => Whole(Define(PushArg, IMM8, NOTHING, VeryLow, Plain))
    case 0x8F => Group(Define(PopArg, RMW, NOTHING, VeryLow, Plain), UNDEFINED, UNDEFINED, UNDEFINED,
                       UNDEFINED, UNDEFINED, UNDEFINED, UNDEFINED)
    case 0x9C => Whole(Define(PushFlags, NOTHING, NOTHING, Low, Plain))
    case 0x9D => Whole(Define(PopFlags, NOTHING, NOTHING, Low, Plain))
    case _ => if i < 0x58 then Whole(Define(PushArg, SUFFIXW, NOTHING, VeryLow, Plain))
              else Whole(Define(PopArg, SUFFIXW, NOTHING, VeryLow, Plain))
  }

  function JumpRow(i: int): (r: OpcodeProperties)
    ensures SaneRow(r)
  {
    match i
    case 0xE3 => Whole(Define(JumpIfEcxZero, REL8, NOTHING, Low, Unpredictable))
    case 0xE8 => Whole(Define(CallRelative, RELW, NOTHING, Low, RelativeJump))
    case 0xE9 => Whole(Define(JumpRelative, RELW, NOTHING, Low, Unpredictable))
    case 0xEB => Whole(Define(JumpRelative, REL8, NOTHING, Low, RelativeJump))
    case _ => if i < 0x100 then Whole(Define(JumpIf, REL8, NOTHING, Low, Unpredictable))
              else Whole(Define(JumpIf, RELW, NOTHING, Low, Unpredictable))
  }

  function ControlRow(i: int): (r: OpcodeProperties)
    ensures SaneRow(r)
  {
    match i
    case 0xC2 => Whole(Define(Ret, IMM16, NOTHING, Low, Unpredictable))
    case 0xC3 => Whole(Define(Ret, NOTHING, NOTHING, Low, Unpredictable))
    case 0xCC => Whole(Define(Interrupt, (Literal(Byte(3)), Fixed(SizeByte)), NOTHING, Moderate, Unpredictable))
    case 0xCD => Whole(Define(Interrupt, IMM8, NOTHING, Moderate, Unpredictable))
    case 0xF4 => Whole(Define(Hlt, NOTHING, NOTHING, TierNone, UnpredictableNoGas))
    case _ => IndirectGroup()
  }

  function IndirectGroup(): (r: OpcodeProperties)
    ensures SaneRow(r)
  {
    Group(UNDEFINED, UNDEFINED, Define(CallAbsolute, RMW, NOTHING, Low, Unpredictable), UNDEFINED,
          Define(JumpAbsolute, RMW, NOTHING, Moderate, Unpredictable), UNDEFINED,
          Define(PushArg, RMW, NOTHING, VeryLow, Plain), UNDEFINED)
  }

  function OtherRow(i: int): (r: OpcodeProperties)
    ensures SaneRow(r)
  {
    match i
    case 0x27 => Whole(Define(Daa, NOTHING, NOTHING, Low, Plain))
    case 0x80 => AluGroup(Narrow, RM8, IMM8)
    case 0x81 => AluGroup(Native, RMW, IMMW)
    case 0x83 => AluGroup(Native, RMW, IMM8)
    case 0x8D => Whole(Define(Lea, REGW, RMW, Low, Plain))
    case 0x90 => Whole(Define(Nop, NOTHING, NOTHING, TierNone, Plain))
    case 0xF0 => Whole(Define(Nop, NOTHING, NOTHING, TierNone, Plain))
    case 0xA4 => StringRow(Movs(Narrow))
    case 0xA5 => StringRow(Movs(Native))
    case 0xA6 => StringRow(Cmps(Narrow))
    case 0xA7 => StringRow(Cmps(Native))
    case 0xAA => StringRow(Stos(Narrow))
    case 0xAB => StringRow(Stos(Native))
    case 0xAC => StringRow(Lods(Narrow))
    case 0xAD => StringRow(Lods(Native))
    case 0xAE => StringRow(Scas(Narrow))
    case 0xAF => StringRow(Scas(Native))
    case 0xC0 => RotateGroup(Narrow, RM8, IMM8)
    case 0xC1 => RotateGroup(Native, RMW, IMM8)
    case 0xD0 => RotateGroup(Narrow, RM8, ONE)
    case 0xD1 => RotateGroup(Native, RMW, ONE)
    case 0xD2 => RotateGroup(Narrow, RM8, COUNT)
    case 0xD3 => RotateGroup(Native, RMW, COUNT)
    case 0xF6 => MulDivGroup(Narrow, RM8)
    case 0xF7 => MulDivGroup(Native, RMW)
    case 0xFC => Whole(Define(ClearDirection, NOTHING, NOTHING, VeryLow, Plain))
    case 0xFD => Whole(Define(SetDirection, NOTHING, NOTHING, VeryLow, Plain))
    case _ => Whole(UNDEFINED)
  }

  function Lookup(i: int): (r: OpcodeProperties)
    ensures SaneRow(r)
  {
    if 0x00 <= i <= 0x05 then AluForm(Add, i)
    else if 0x10 <= i <= 0x15 then AluForm(Adc, i - 0x10)
    else if 0x28 <= i <= 0x2D then AluForm(Sub, i - 0x28)
    else if 0x38 <= i <= 0x3D then AluForm(Cmp, i - 0x38)
    else if 0x50 <= i <= 0x61 || i in {0x68, 0x6A, 0x8F, 0x9C, 0x9D} then StackRow(i)
    else if 0x88 <= i <= 0x8B || 0xA0 <= i <= 0xA3 || 0xB0 <= i <= 0xBF || i in {0xC6, 0xC7} then MovRow(i)
    else if 0x70 <= i <= 0x7F || 0x180 <= i <= 0x18F || i in {0xE3, 0xE8, 0xE9, 0xEB} then JumpRow(i)
    else if i in {0xC2, 0xC3, 0xCC, 0xCD, 0xF4, 0xFF} then ControlRow(i)
    else OtherRow(i)
  }

  const OPCODES: Table := i => Lookup(i)
}

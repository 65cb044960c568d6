// Decoding whole instructions: prefixes, opcode, Mod R/M operand and immediates,
// as an assembler would lay them out.

module Encoding {
  import opened Words
  import opened Errors
  import opened Structs
  import opened VMState
  import opened Opcodes
  import OpcodeMap
  import opened Decoding
  import opened Fetch
  import opened EffectiveAddress
  import Arithmetic
  import opened Places

  // ---------- an assembler ----------

  /** The Mod R/M operand: a register or memory. */
  datatype RegMem = InRegister(r: u3) | InMemory(m: MemoryOperand) {
    predicate Encodable() {
      InMemory? ==> m.Encodable()
    }
  }

  function EncodeRegMem(reg: u3, rm: RegMem): seq<u8>
    requires rm.Encodable()
  {
    match rm
    case InRegister(r) => [0xC0 + reg * 8 + r]
    case InMemory(m) => Encode(reg, m)
  }

  function PrefixBytes(p: Prefixes): seq<u8> {
    (if p.sizeOverride then [0x66] else [])
    + (match p.rep case NoRep => [] case RepEqual => [0xF3] case RepNotEqual => [0xF2])
    + (if p.twoBytes then [0x0F] else [])
  }

  predicate IsPrefixByte(b: u8) {
    b in {0x66, 0x0F, 0x67, 0xF2, 0xF3}
  }

  /** The bytes an operand takes behind opcode and Mod R/M. */
  function OperandBytes(source: ArgSource, size: ValueSize, value: u32): seq<u8> {
    match source
    case ImmediateAddress => Bytes32(value)
    case ImmediateValue => NumberBytes(size, value)
    case JumpRel => NumberBytes(size, value)
    case _ => []
  }

  function NumberBytes(size: ValueSize, value: u32): seq<u8> {
    match size
    case SizeByte => [value % 0x100]
    case SizeWord => Bytes16(value % 0x1_0000)
    case SizeDword => Bytes32(value)
    case _ => []
  }

  /** The decoded operand is what was encoded. */
  predicate Stands(arg: OpArgument, source: ArgSource, size: ValueSize, opcode: u8, reg: u3, rm: RegMem, value: u32) {
    match source
    case SourceNone => arg == NO_ARGUMENT
    case ModRM =>
      (match rm
       case InRegister(r) => arg == OpArgument(RegisterValue(r, size), false)
       case InMemory(m) => OperandAt(arg.location) == Some(m) && WidthOf(arg.location) == size && arg.isMemory)
    case ModRMReg => arg == OpArgument(RegisterValue(reg, size), false)
    case ImmediateValue => StandsFor(arg, size, value)
    case JumpRel => StandsFor(arg, size, value)
    case ImmediateAddress => arg == OpArgument(Address(value, size), true)
    case RegisterSuffix => arg == OpArgument(RegisterValue(opcode % 8, size), false)
    case Literal(l) => arg == OpArgument(Immediate(l), false)
    case HardcodedRegister(r) => arg == OpArgument(RegisterValue(r, size), true)
  }

  predicate StandsFor(arg: OpArgument, size: ValueSize, value: u32) {
    && arg.location.Immediate? && !arg.isMemory
    && if IsWidth(size) then HasSize(arg.location.v, size) && arg.location.v.Number() == value % Arithmetic.Modulus(size)
       else arg.location.v == NoValue
  }

  type Values = v: seq<u32> | |v| == 3 witness [0, 0, 0]

  /** The immediate bytes of operands n and up. */
  function TailBytes(o: Opcode, n: nat, sizeOverride: bool, values: Values): seq<u8>
    requires n <= 3
    decreases 3 - n, o
  {
    if n == 3 then []
    else OperandBytes(o.source[n], o.size[n].ToFixed(sizeOverride), values[n]) + TailBytes(o, n + 1, sizeOverride, values)
  }

  // ---------- prefixes ----------

  lemma ScanStops(p: Prefixes, rest: seq<u8>, size: nat)
    requires rest != []
    ensures !IsPrefixByte(rest[0]) ==> ScanPrefixes(p, rest, size) == Ok((p, size))
    ensures rest[0] == 0x0F ==> ScanPrefixes(p, rest, size) == Ok((p.(twoBytes := true), size + 1))
    ensures rest[0] == 0x66 ==> ScanPrefixes(p, rest, size) == ScanPrefixes(p.(sizeOverride := true), rest[1..], size + 1)
    ensures rest[0] == 0xF2 ==> ScanPrefixes(p, rest, size) == ScanPrefixes(p.(rep := RepNotEqual), rest[1..], size + 1)
    ensures rest[0] == 0xF3 ==> ScanPrefixes(p, rest, size) == ScanPrefixes(p.(rep := RepEqual), rest[1..], size + 1)
  {
  }

  /** Scanning finds the prefixes that were put there. */
  lemma PrefixesAreFound(p: Prefixes, rest: seq<u8>)
    requires rest != [] && (p.twoBytes || !IsPrefixByte(rest[0]))
    ensures ScanPrefixes(NO_PREFIXES, PrefixBytes(p) + rest, 0) == Ok((p, |PrefixBytes(p)|))
  {
    hide ScanPrefixes;
    var two := if p.twoBytes then [0x0F] else [];
    var last := two + rest;
    var rep := match p.rep case NoRep => [] case RepEqual => [0xF3] case RepNotEqual => [0xF2];
    var middle := rep + last;
    var all := PrefixBytes(p) + rest;
    assert all == (if p.sizeOverride then [0x66] else []) + middle;
    var q := NO_PREFIXES.(sizeOverride := p.sizeOverride);
    var n := if p.sizeOverride then 1 else 0;
    if p.sizeOverride {
      ScanStops(NO_PREFIXES, all, 0);
      assert all[1..] == middle;
    } else {
      assert all == middle;
    }
    assert ScanPrefixes(NO_PREFIXES, all, 0) == ScanPrefixes(q, middle, n);
    if rep != [] {
      ScanStops(q, middle, n);
      assert middle[1..] == last;
    } else {
      assert middle == last;
    }
    ScanStops(q.(rep := p.rep), last, n + |rep|);
    if !p.twoBytes { assert last == rest; }
  }

  // ---------- operands ----------

  lemma NumberDecodes(size: ValueSize, value: u32, rest: seq<u8>)
    ensures var bytes := NumberBytes(size, value) + rest;
            var r := DecodeImmediate(size, bytes);
            && r.Ok? && r.value.1 == |NumberBytes(size, value)| && StandsFor(r.value.0, size, value)
  {
    hide Bytes16, Bytes32, Le16, Le32;
    var b := NumberBytes(size, value);
    assert (b + rest)[..|b|] == b;
  }

  lemma RegMemDecodes(opcode: u8, reg: u3, rm: RegMem, rest: seq<u8>, size: ValueSize)
    requires rm.Encodable() && |EncodeRegMem(reg, rm)| + |rest| >= 4
    ensures var r := FromBytes([opcode] + EncodeRegMem(reg, rm) + rest);
            && r.Ok? && r.value.size == |EncodeRegMem(reg, rm)| && r.value.modrm.reg == reg
            && Stands(Located(r.value, size), ModRM, size, opcode, reg, rm, 0)
  {
    hide Encode, OperandAt;
    if rm.InMemory? {
      hide FromBytes;
      DecodeEncode(opcode, reg, rm.m, rest, size);
      var r := FromBytes([opcode] + Encode(reg, rm.m) + rest).value;
      assert OperandAt(Located(r, size).location).Some?;
      MemoryIsMemory(r, size);
    } else {
      var stream := [opcode] + EncodeRegMem(reg, rm) + rest;
      EffectiveAddress.Fields(3, reg, rm.r);
      assert stream[1] == 0xC0 + reg * 8 + rm.r;
    }
  }

  lemma MemoryIsMemory(p: ParsedModRM, size: ValueSize)
    requires OperandAt(Located(p, size).location).Some?
    ensures Located(p, size).isMemory && WidthOf(Located(p, size).location) == size
  {
  }

  lemma ArgDecodes(source: ArgSource, size: ValueSize, opcode: u8, reg: u3, rm: RegMem, value: u32, rest: seq<u8>, m: ParsedModRM)
    requires UsesModRM(source) ==> m.modrm.reg == reg && Stands(Located(m, size), ModRM, size, opcode, reg, rm, 0)
    ensures var b := OperandBytes(source, size, value);
            var r := DecodeArg(source, size, opcode, b + rest, m);
            r.Ok? && r.value.1 == |b| && Stands(r.value.0, source, size, opcode, reg, rm, value)
  {
    hide Bytes32, Le32, OperandAt, DecodeImmediate, NumberBytes, StandsFor;
    if source.ImmediateValue? || source.JumpRel? {
      NumberDecodes(size, value, rest);
    } else if source.ImmediateAddress? {
      assert (Bytes32(value) + rest)[..4] == Bytes32(value);
      assert Le32(Bytes32(value)) == value;
    }
  }

  lemma SplitOff(first: seq<u8>, tail: seq<u8>, rest: seq<u8>)
    ensures (first + tail) + rest == first + (tail + rest) && ((first + tail) + rest)[|first|..] == tail + rest
  {
  }

  /** The parsed Mod R/M, where an operand calls for one, is the encoded one. */
  ghost predicate Parsed(o: Opcode, opcode: u8, reg: u3, rm: RegMem, m: ParsedModRM) {
    HasModRM(o) ==> m.modrm.reg == reg && forall z :: Stands(Located(m, z), ModRM, z, opcode, reg, rm, 0)
  }

  lemma OperandDecodes(o: Opcode, n: nat, opcode: u8, reg: u3, rm: RegMem, value: u32, rest: seq<u8>, sizeOverride: bool,
                       m: ParsedModRM)
    requires n < 3 && Parsed(o, opcode, reg, rm, m)
    ensures var size := o.size[n].ToFixed(sizeOverride);
            var b := OperandBytes(o.source[n], size, value);
            var r := DecodeArg(o.source[n], size, opcode, b + rest, m);
            r.Ok? && r.value.1 == |b| && Stands(r.value.0, o.source[n], size, opcode, reg, rm, value)
  {
    hide DecodeArg, Stands, OperandBytes;
    ArgDecodes(o.source[n], o.size[n].ToFixed(sizeOverride), opcode, reg, rm, value, rest, m);
  }

  /** Operands n and up, from their bytes. */
  lemma {:induction false} ArgsDecode(o: Opcode, n: nat, opcode: u8, reg: u3, rm: RegMem, values: Values, rest: seq<u8>,
                                      size: nat, args: Args, sizeOverride: bool, m: ParsedModRM)
    requires n <= 3 && Parsed(o, opcode, reg, rm, m)
    ensures var b := TailBytes(o, n, sizeOverride, values);
            var r := DecodeArgsFrom(o, n, opcode, b + rest, size, args, sizeOverride, m);
            && r.Ok? && r.value.1 == size + |b| && r.value.0[..n] == args[..n]
            && (forall i :: n <= i < 3 ==>
                  Stands(r.value.0[i], o.source[i], o.size[i].ToFixed(sizeOverride), opcode, reg, rm, values[i]))
    decreases 3 - n
  {
    hide DecodeArg, Stands, OperandBytes, Parsed;
    if n < 3 {
      var fixed := o.size[n].ToFixed(sizeOverride);
      var first := OperandBytes(o.source[n], fixed, values[n]);
      var tail := TailBytes(o, n + 1, sizeOverride, values);
      OperandDecodes(o, n, opcode, reg, rm, values[n], tail + rest, sizeOverride, m);
      SplitOff(first, tail, rest);
      var (arg, k) := DecodeArg(o.source[n], fixed, opcode, (first + tail) + rest, m).value;
      ArgsDecode(o, n + 1, opcode, reg, rm, values, rest, size + k, args[n := arg], sizeOverride, m);
      var r := DecodeArgsFrom(o, n + 1, opcode, tail + rest, size + k, args[n := arg], sizeOverride, m).value.0;
      assert r[n] == r[..n + 1][n] == arg;
      assert r[..n] == r[..n + 1][..n] == args[n := arg][..n + 1][..n];
    }
  }

  // ---------- whole instructions ----------

  function Index(p: Prefixes, opcode: u8): int {
    opcode as int + if p.twoBytes then 0x100 else 0
  }

  /** The entry an instruction with this register field is decoded by: one of
      eight behind a Mod R/M byte, the first one otherwise. */
  function Entry(table: Table, p: Prefixes, opcode: u8, reg: u3): Opcode {
    OpcodeMap.Pick(table(Index(p, opcode)), reg)
  }

  /** An instruction an assembler can write for this table: no prefix byte as
      opcode, and operands that need a Mod R/M byte only where there is one. */
  ghost predicate Writable(table: Table, p: Prefixes, opcode: u8, reg: u3, rm: RegMem) {
    && rm.Encodable() && Index(p, opcode) < OPCODE_TABLE_SIZE && (p.twoBytes || !IsPrefixByte(opcode))
    && (table(Index(p, opcode)).hasModRM || !HasModRM(Entry(table, p, opcode, reg)))
  }

  function ModRMBytes(table: Table, p: Prefixes, opcode: u8, reg: u3, rm: RegMem): seq<u8>
    requires rm.Encodable()
  {
    if table(Index(p, opcode)).hasModRM then EncodeRegMem(reg, rm) else []
  }

  /** Opcode, Mod R/M operand and immediates. */
  function BodyBytes(table: Table, p: Prefixes, opcode: u8, reg: u3, rm: RegMem, values: Values): seq<u8>
    requires rm.Encodable()
  {
    [opcode] + ModRMBytes(table, p, opcode, reg, rm) + TailBytes(Entry(table, p, opcode, reg), 0, p.sizeOverride, values)
  }

  function InstructionBytes(table: Table, p: Prefixes, opcode: u8, reg: u3, rm: RegMem, values: Values): seq<u8>
    requires rm.Encodable()
  {
    PrefixBytes(p) + BodyBytes(table, p, opcode, reg, rm, values)
  }

  lemma BodyParts(opcode: u8, modrm: seq<u8>, tail: seq<u8>, rest: seq<u8>)
    ensures var buffer := [opcode] + modrm + tail + rest;
            && buffer == [opcode] + modrm + (tail + rest) && buffer[0] == opcode
            && buffer[1 + |modrm|..] == tail + rest
  {
  }

  /** What the fields of a decoded instruction have to be. */
  ghost predicate AreEncoded(f: Fetch.Fields, table: Table, p: Prefixes, opcode: u8, reg: u3, rm: RegMem, values: Values)
    requires rm.Encodable()
  {
    var o := Entry(table, p, opcode, reg);
    && f.o == o && f.hasModRM == table(Index(p, opcode)).hasModRM && f.sizeOverride == p.sizeOverride && f.opcode == opcode
    && f.size == |InstructionBytes(table, p, opcode, reg, rm, values)|
    && (forall i :: 0 <= i < 3 ==>
          Stands(f.args[i], o.source[i], o.size[i].ToFixed(p.sizeOverride), opcode, reg, rm, values[i]))
  }

  lemma FieldsDecode(table: Table, p: Prefixes, opcode: u8, reg: u3, rm: RegMem, values: Values, rest: seq<u8>, prev: Args)
    requires Writable(table, p, opcode, reg, rm) && p.rep == NoRep
    requires |PrefixBytes(p)| + |BodyBytes(table, p, opcode, reg, rm, values)| + |rest| == 16
    ensures var r := ReadFields(table, p, |PrefixBytes(p)|, BodyBytes(table, p, opcode, reg, rm, values) + rest, prev);
            r.Ok? && AreEncoded(r.value, table, p, opcode, reg, rm, values)
  {
    hide FromBytes, DecodeArgsFrom, TailBytes, EncodeRegMem, Stands, HasModRM;
    var o := Entry(table, p, opcode, reg);
    var modrm := ModRMBytes(table, p, opcode, reg, rm);
    var tail := TailBytes(o, 0, p.sizeOverride, values);
    var buffer := BodyBytes(table, p, opcode, reg, rm, values) + rest;
    BodyParts(opcode, modrm, tail, rest);
    var m := DEFAULT_MODRM;
    if table(Index(p, opcode)).hasModRM {
      forall z
        ensures FromBytes(buffer).Ok? && Stands(Located(FromBytes(buffer).value, z), ModRM, z, opcode, reg, rm, 0)
      {
        RegMemDecodes(opcode, reg, rm, tail + rest, z);
      }
      RegMemDecodes(opcode, reg, rm, tail + rest, SizeByte);
      m := FromBytes(buffer).value;
    }
    ArgsDecode(o, 0, opcode, reg, rm, values, rest, 1 + m.size, prev, p.sizeOverride, m);
  }

  /** A displacement as a signed number. */
  function SignedValue(v: SizedValue): int {
    match v
    case Byte(b) => Arithmetic.Signed(b, SizeByte)
    case Word(w) => Arithmetic.Signed(w, SizeWord)
    case Dword(d) => Arithmetic.Signed(d, SizeDword)
    case _ => 0
  }

  lemma SignExtended(v: SizedValue)
    requires !v.Qword?
    ensures v.U32Sx() == Ok(Wrap32(SignedValue(v)))
  {
  }

  /** A relative jump lands at the next instruction plus the displacement. */
  lemma JumpBaseLands(eip: u32, size: u8, rel: u32)
    ensures Wrap32(JumpBase(eip, size, rel) + size) == Wrap32(eip + size + rel)
  {
    hide Wrap32;
    WrapAfter(rel, eip + size);
    WrapAfter(size, Wrap32(Wrap32(eip + size) + rel) - size as int);
    WrapAfter(0, eip + size + rel);
  }

  lemma WrapAfter(x: int, y: int)
    ensures Wrap32(x + Wrap32(y)) == Wrap32(x + y)
  {
  }

  function MemoryOperands(args: Args): nat {
    (if args[0].isMemory then 1 else 0) + (if args[1].isMemory then 1 else 0) + (if args[2].isMemory then 1 else 0)
  }

  /** The price of an instruction: its tier, and what a Mod R/M byte, a branch,
      every memory operand and code in writable memory cost on top. */
  function Price(costs: Costs, o: Opcode, hasModRM: bool, memory: nat, writeable: bool): int {
    Cost(costs, o.gas) as int + (if hasModRM then Cost(costs, ModRMSurcharge) as int else 0)
    + (if o.behavior == Unpredictable then Cost(costs, ConditionalBranch) as int else 0)
    + memory * Cost(costs, MemoryAccess) as int
    + (if writeable then Cost(costs, WriteableMemoryExec) as int else 0)
  }

  /** The slot of an encoded instruction. */
  ghost predicate IsEncoded(slot: Slot, costs: Costs, w: bool, table: Table, p: Prefixes, opcode: u8, reg: u3, rm: RegMem,
                            values: Values)
    requires rm.Encodable()
  {
    var o := Entry(table, p, opcode, reg);
    && slot.op == o.op && slot.sizeOverride == p.sizeOverride && slot.opcode == opcode
    && slot.eipSize == |InstructionBytes(table, p, opcode, reg, rm, values)|
    && slot.gasCost == Wrap64(Price(costs, o, table(Index(p, opcode)).hasModRM, MemoryOperands(slot.args), w))
    && (forall i :: 0 <= i < 3 ==>
          Stands(slot.args[i], o.source[i], o.size[i].ToFixed(p.sizeOverride), opcode, reg, rm, values[i]))
  }

  lemma PriceIsCharged(costs: Costs, f: Fetch.Fields, w: bool)
    ensures FieldsGas(costs, f, w) == Wrap64(Price(costs, f.o, f.hasModRM, MemoryOperands(f.args), w))
  {
    hide Wrap64;
    var n, a := MemoryOperands(f.args), Cost(costs, MemoryAccess) as int;
    assert n * a == MemoryGas(costs, f.args);
  }

  /** Decoding undoes assembling: the slot has the function of the entry that the
      opcode and the register field select, its operands are the encoded ones in
      table order, its size is the number of bytes and its gas the price; reading
      goes on behind the instruction, or where a direct jump leads. */
  lemma DecodesInstruction(table: Table, s: State, window: seq<u8>, eip: u32, w: bool, prev: Slot,
                           p: Prefixes, opcode: u8, reg: u3, rm: RegMem, values: Values, rest: seq<u8>)
    requires Writable(table, p, opcode, reg, rm) && p.rep == NoRep
    requires |window| == 16 && window == InstructionBytes(table, p, opcode, reg, rm, values) + rest
    requires Entry(table, p, opcode, reg).behavior == RelativeJump ==> Entry(table, p, opcode, reg).source[0] == JumpRel
    ensures var r := DecodeWindow(table, s, window, eip, w, prev);
            var o := Entry(table, p, opcode, reg);
            var next := eip + |InstructionBytes(table, p, opcode, reg, rm, values)|;
            if o.behavior == RelativeJump && p.sizeOverride then r.Err?
            else
              && r.Ok? && IsEncoded(r.value.slot, s.costs, w, table, p, opcode, reg, rm, values)
              && (o.behavior == Plain ==> r.value.next == Wrap32(next) && r.value.stop == w)
              && (o.behavior == RelativeJump ==>
                    && r.value.slot.args[0].location.Immediate? && r.value.stop == w
                    && r.value.next == Wrap32(next + SignedValue(r.value.slot.args[0].location.v)))
              && (o.behavior == Unpredictable || o.behavior == UnpredictableNoGas ==> r.value.stop)
  {
    hide DecodeWindow, DecodeFields, Stands, InstructionBytes, IsEncoded;
    var f := WindowFields(table, s, window, eip, w, prev, p, opcode, reg, rm, values, rest);
    FieldsGiveSlot(s, f, eip, w, table, p, opcode, reg, rm, values);
  }

  lemma WindowFields(table: Table, s: State, window: seq<u8>, eip: u32, w: bool, prev: Slot,
                     p: Prefixes, opcode: u8, reg: u3, rm: RegMem, values: Values, rest: seq<u8>) returns (f: Fetch.Fields)
    requires Writable(table, p, opcode, reg, rm) && p.rep == NoRep
    requires |window| == 16 && window == InstructionBytes(table, p, opcode, reg, rm, values) + rest
    ensures AreEncoded(f, table, p, opcode, reg, rm, values)
    ensures DecodeWindow(table, s, window, eip, w, prev) == DecodeFields(s, f, eip, w)
  {
    hide ReadFields, ScanPrefixes, DecodeFields, AreEncoded, BodyBytes, Entry;
    var body := BodyBytes(table, p, opcode, reg, rm, values);
    var prefix := PrefixBytes(p);
    StartsWithOpcode(table, p, opcode, reg, rm, values);
    SplitOff(prefix, body, rest);
    assert p.twoBytes || !IsPrefixByte(opcode) by { NoPrefix(table, p, opcode, reg, rm); }
    PrefixesAreFound(p, body + rest);
    FieldsDecode(table, p, opcode, reg, rm, values, rest, prev.args);
    f := ReadFields(table, p, |prefix|, body + rest, prev.args).value;
  }

  lemma NoPrefix(table: Table, p: Prefixes, opcode: u8, reg: u3, rm: RegMem)
    requires Writable(table, p, opcode, reg, rm)
    ensures p.twoBytes || !IsPrefixByte(opcode)
  {
  }

  lemma FieldsGiveSlot(s: State, f: Fetch.Fields, eip: u32, w: bool, table: Table, p: Prefixes, opcode: u8, reg: u3, rm: RegMem,
                       values: Values)
    requires rm.Encodable() && AreEncoded(f, table, p, opcode, reg, rm, values)
    requires f.o.behavior == RelativeJump ==> f.o.source[0] == JumpRel
    ensures var r := DecodeFields(s, f, eip, w);
            if f.o.behavior == RelativeJump && p.sizeOverride then r.Err?
            else
              && r.Ok? && IsEncoded(r.value.slot, s.costs, w, table, p, opcode, reg, rm, values)
              && (f.o.behavior == Plain ==> r.value.next == Wrap32(eip + f.size) && r.value.stop == w)
              && (f.o.behavior == RelativeJump ==>
                    && r.value.slot.args[0].location.Immediate? && r.value.stop == w
                    && r.value.next == Wrap32(eip + f.size + SignedValue(r.value.slot.args[0].location.v)))
              && (f.o.behavior == Unpredictable || f.o.behavior == UnpredictableNoGas ==> r.value.stop)
  {
    hide Stands, FieldsGas, Price, InstructionBytes, Wrap64;
    PriceIsCharged(s.costs, f, w);
    if f.o.behavior == RelativeJump {
      DirectJumpDecodes(s, f, eip, w, opcode, reg, rm, values);
    }
  }

  lemma StartsWithOpcode(table: Table, p: Prefixes, opcode: u8, reg: u3, rm: RegMem, values: Values)
    requires rm.Encodable()
    ensures var b := BodyBytes(table, p, opcode, reg, rm, values); b != [] && b[0] == opcode
  {
  }

  lemma DirectJumpDecodes(s: State, f: Fetch.Fields, eip: u32, w: bool, opcode: u8, reg: u3, rm: RegMem, values: Values)
    requires f.o.behavior == RelativeJump && f.o.source[0] == JumpRel
    requires Stands(f.args[0], JumpRel, f.o.size[0].ToFixed(f.sizeOverride), opcode, reg, rm, values[0])
    ensures f.args[0].location.Immediate?
    ensures var r := DecodeFields(s, f, eip, w);
            if f.sizeOverride then r.Err?
            else r == Ok(Decoded(Slot(f.o.op, f.args, FieldsGas(s.costs, f, w), f.size, f.sizeOverride, f.opcode),
                                 Wrap32(eip + f.size + SignedValue(f.args[0].location.v)), w))
  {
    hide FieldsGas, JumpBase;
    var v := f.args[0].location.v;
    SignExtended(v);
    var rel := Wrap32(SignedValue(v));
    JumpBaseLands(eip, f.size, rel);
    WrapAfter(eip + f.size, SignedValue(v));
  }

  /** The same for a rep prefix: F3 is repe and F2 repne, the slot names the
      opcode to repeat and keeps the operands of its cell. */
  lemma DecodesRep(table: Table, s: State, window: seq<u8>, eip: u32, w: bool, prev: Slot, p: Prefixes, opcode: u8, rest: seq<u8>)
    requires p.rep != NoRep && (p.twoBytes || !IsPrefixByte(opcode))
    requires |window| == 16 && window == PrefixBytes(p) + [opcode] + rest
    ensures DecodeWindow(table, s, window, eip, w, prev)
         == Ok(Decoded(Slot(if 0xF3 in PrefixBytes(p) then Repe else Repne, prev.args,
                            Wrap64(Cost(s.costs, Moderate) as int + if w then Cost(s.costs, WriteableMemoryExec) as int else 0),
                            |PrefixBytes(p)| + 1, p.sizeOverride, opcode),
                       eip, true))
  {
    hide ScanPrefixes, ReadFields;
    SplitOff(PrefixBytes(p), [opcode], rest);
    PrefixesAreFound(p, [opcode] + rest);
  }
}

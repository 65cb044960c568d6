// Mod R/M addressing against the tables of the architecture manual, and an encoder.

module EffectiveAddress {
  import opened Words
  import opened Errors
  import opened Structs
  import opened VMState
  import opened Decoding

  /** Byte i of an instruction, 0 past its end. */
  function ByteOf(stream: seq<u8>, i: nat): u8 {
    if i < |stream| then stream[i] else 0
  }

  function Dword32(stream: seq<u8>, i: nat): int {
    ByteOf(stream, i) as int + 0x100 * ByteOf(stream, i + 1) as int
    + 0x1_0000 * ByteOf(stream, i + 2) as int + 0x100_0000 * ByteOf(stream, i + 3) as int
  }

  /** The displacement as the manual reads it: none, a signed byte, or a dword. */
  function Displacement(mode: int, stream: seq<u8>, i: nat): int {
    if mode == 0 then 0
    else if mode == 1 then if ByteOf(stream, i) < 0x80 then ByteOf(stream, i) else ByteOf(stream, i) as int - 0x100
    else Dword32(stream, i)
  }

  /** Table 2-2 of section 2.1.5 of the Intel SDM, volume 2A: the address named
      by the bytes after the opcode (mod is not 3). */
  function ManualAddress(regs: Regs, stream: seq<u8>): int {
    var mode, rm := ByteOf(stream, 1) / 64, ByteOf(stream, 1) % 8;
    if rm == 4 then ManualSIB(regs, mode, ByteOf(stream, 2), stream)
    else if mode == 0 && rm == 5 then Dword32(stream, 2)
    else (regs[rm] as int + Displacement(mode, stream, 2)) % 0x1_0000_0000
  }

  /** Table 2-3: scaled index and base. */
  function ManualSIB(regs: Regs, mode: int, sib: u8, stream: seq<u8>): int {
    var factor := if sib / 64 == 0 then 1 else if sib / 64 == 1 then 2 else if sib / 64 == 2 then 4 else 8;
    var scaled := if sib / 8 % 8 == 4 then 0 else regs[sib / 8 % 8] as int * factor;
    if mode == 0 && sib % 8 == 5 then (scaled + Dword32(stream, 3)) % 0x1_0000_0000
    else (regs[sib % 8] as int + scaled + Displacement(mode, stream, 3)) % 0x1_0000_0000
  }

  /** How many bytes the mod, rm and base fields call for after the opcode. */
  function ManualLength(stream: seq<u8>): nat {
    var mode, rm := ByteOf(stream, 1) / 64, ByteOf(stream, 1) % 8;
    var sib := if mode != 3 && rm == 4 then 1 else 0;
    var disp :=
      if mode == 2 || (mode == 0 && rm == 5) || (mode == 0 && rm == 4 && ByteOf(stream, 2) % 8 == 5) then 4
      else if mode == 1 then 1 else 0;
    1 + sib + disp
  }

  /** The operand decoding gives for a parsed Mod R/M. */
  function Located(p: ParsedModRM, size: ValueSize): OpArgument {
    DecodeModRM(p.modrm, if p.sib.Some? then p.sib.value else NO_SIB, if p.disp.Some? then p.disp.value else 0, size)
  }

  lemma ReadsDword(stream: seq<u8>, i: nat)
    requires i + 4 <= |stream|
    ensures U32FromBytes(stream[i..]) == Ok(Dword32(stream, i))
  {
    assert stream[i..][..4] == [stream[i], stream[i + 1], stream[i + 2], stream[i + 3]];
  }

  lemma WrapTwice(a: int, b: int)
    ensures (a % 0x1_0000_0000 + b) % 0x1_0000_0000 == (a + b) % 0x1_0000_0000
  {
  }

  lemma WrapSigned(a: int, d: u8)
    ensures Wrap32(a + Sx8To32(d)) == (a + if d < 0x80 then d else d as int - 0x100) % 0x1_0000_0000
  {
  }

  /** What parsing leaves, in terms of the bytes. */
  lemma ParsedFields(stream: seq<u8>)
    requires FromBytes(stream).Ok?
    ensures var p := FromBytes(stream).value;
            var mode, rm := ByteOf(stream, 1) / 64, ByteOf(stream, 1) % 8;
            var at := if rm == 4 then 3 else 2;
            && p.modrm == ModRMByte(rm, ByteOf(stream, 1) / 8 % 8, mode)
            && (mode != 3 && rm == 4 ==> p.sib == Some(ParseSIB(ByteOf(stream, 2))))
            && (mode == 1 ==> p.disp == Some(Sx8To32(ByteOf(stream, at))))
            && (mode == 2 || (mode == 0 && (rm == 5 || (rm == 4 && ByteOf(stream, 2) % 8 == 5))) ==>
                  p.disp == Some(Dword32(stream, at)))
            && (mode == 0 && rm != 5 && !(rm == 4 && ByteOf(stream, 2) % 8 == 5) ==> p.disp == None)
            && p.size == ManualLength(stream)
  {
    var mode, rm := stream[1] / 64, stream[1] % 8;
    var at := if mode != 3 && rm == 4 then 3 else 2;
    if |stream| >= at + 4 {
      ReadsDword(stream, at);
    }
  }

  lemma SibResolves(regs: Regs, mode: u2, sib: u8, stream: seq<u8>, disp: u32, size: ValueSize)
    requires mode != 3
    requires mode == 1 ==> disp == Sx8To32(ByteOf(stream, 3))
    requires mode == 2 || (mode == 0 && sib % 8 == 5) ==> disp == Dword32(stream, 3)
    requires mode == 0 && sib % 8 != 5 ==> disp == 0
    ensures GetArgLea(regs, DecodeModRM(ModRMByte(4, 0, mode), ParseSIB(sib), disp, size).location)
         == Ok(ManualSIB(regs, mode, sib, stream))
  {
    var s := ParseSIB(sib);
    var factor := if s.scale == 0 then 1 else if s.scale == 1 then 2 else if s.scale == 2 then 4 else 8;
    var index := if s.index == 4 then 0 else regs[s.index];
    var base := if mode == 0 && s.base == 5 then 0 else regs[s.base];
    assert Wrap32(index as int * factor) == index as int * factor % 0x1_0000_0000;
    hide Dword32;
    WrapTwice(index as int * factor, base);
    WrapTwice(base as int + index as int * factor, disp);
    WrapSigned(base as int + index as int * factor, ByteOf(stream, 3));
  }

  lemma PlainResolves(regs: Regs, m: ModRMByte, stream: seq<u8>, disp: u32, size: ValueSize)
    requires m.mode != 3 && m.rm != 4
    requires m.mode == 1 ==> disp == Sx8To32(ByteOf(stream, 2))
    requires m.mode == 2 || (m.mode == 0 && m.rm == 5) ==> disp == Dword32(stream, 2)
    ensures GetArgLea(regs, DecodeModRM(m, NO_SIB, disp, size).location)
         == Ok(if m.mode == 0 && m.rm == 5 then Dword32(stream, 2)
               else (regs[m.rm] as int + Displacement(m.mode, stream, 2)) % 0x1_0000_0000)
  {
    hide Dword32;
    if m.mode == 1 {
      WrapSigned(regs[m.rm], ByteOf(stream, 2));
    }
  }

  /** For all instruction bytes and registers, the address decoding resolves to
      is the one the manual's tables give, and the length is theirs too. */
  lemma AddressIsManual(regs: Regs, stream: seq<u8>, size: ValueSize)
    requires FromBytes(stream).Ok?
    ensures var p := FromBytes(stream).value;
            && p.size == ManualLength(stream)
            && (if p.modrm.mode == 3 then Located(p, size).location == RegisterValue(p.modrm.rm, size)
                else GetArgLea(regs, Located(p, size).location) == Ok(ManualAddress(regs, stream)))
  {
    ParsedFields(stream);
    var p := FromBytes(stream).value;
    hide FromBytes, Dword32, GetArgLea, ManualSIB, Displacement;
    var disp := if p.disp.Some? then p.disp.value else 0;
    if p.modrm.mode != 3 {
      if p.modrm.rm == 4 {
        SibResolves(regs, p.modrm.mode, ByteOf(stream, 2), stream, disp, size);
        RegFieldUnused(p.modrm, ParseSIB(ByteOf(stream, 2)), disp, size);
      } else {
        PlainResolves(regs, p.modrm, stream, disp, size);
        RegFieldUnused(p.modrm, NO_SIB, disp, size);
      }
    }
  }

  lemma RegFieldUnused(m: ModRMByte, sib: SIBByte, disp: u32, size: ValueSize)
    ensures DecodeModRM(m, sib, disp, size) == DecodeModRM(m.(reg := 0), sib, disp, size)
  {
  }

  // ---------- an encoder ----------

  /** base + index * 2^scale + disp, where ESP cannot be an index. */
  datatype MemoryOperand = MemoryOperand(base: Option<u3>, index: Option<(u3, u2)>, disp: u32) {
    predicate Encodable() {
      index.Some? ==> index.value.0 != ESP
    }
  }

  predicate FitsByte(disp: u32) {
    disp < 0x80 || disp >= 0xFFFF_FF80
  }

  /** The mod field for an operand with a base register, and its displacement. */
  function ModeFor(base: u3, disp: u32): u2 {
    if disp == 0 && base != EBP then 0 else if FitsByte(disp) then 1 else 2
  }

  function DispBytes(mode: u2, disp: u32): seq<u8> {
    if mode == 0 then [] else if mode == 1 then [disp % 0x100] else Bytes32(disp)
  }

  /** The Mod R/M, SIB and displacement bytes of an operand, shortest form. */
  function Encode(reg: u3, m: MemoryOperand): seq<u8>
    requires m.Encodable()
  {
    if m.base.None? && m.index.None? then [reg * 8 + 5] + Bytes32(m.disp)
    else
      var index, scale := if m.index.Some? then m.index.value.0 else 4, if m.index.Some? then m.index.value.1 else 0;
      if m.base.None? then [reg * 8 + 4, scale * 64 + index * 8 + 5] + Bytes32(m.disp)
      else
        var base := m.base.value;
        var mode := ModeFor(base, m.disp);
        if m.index.None? && base != ESP then [mode * 64 + reg * 8 + base] + DispBytes(mode, m.disp)
        else [mode * 64 + reg * 8 + 4, scale * 64 + index * 8 + base] + DispBytes(mode, m.disp)
  }

  /** The operand a decoded location stands for. */
  function OperandAt(loc: ArgLocation): Option<MemoryOperand> {
    match loc
    case Address(a, _) => Some(MemoryOperand(None, None, a))
    case RegisterAddress(r, _) => Some(MemoryOperand(Some(r), None, 0))
    case ModRMAddress(offset, reg, _) => Some(MemoryOperand(reg, None, if offset.Some? then offset.value else 0))
    case SIBAddress(disp, base, scale, index, _) =>
      if scale !in {1, 2, 4, 8} then None
      else
        var s := if scale == 1 then 0 else if scale == 2 then 1 else if scale == 4 then 2 else 3;
        Some(MemoryOperand(base, if index.Some? then Some((index.value, s)) else None, disp))
    case _ => None
  }

  lemma SignedByteBack(disp: u32)
    requires FitsByte(disp)
    ensures Sx8To32(disp % 0x100) == disp
  {
  }

  lemma DispDecodes(stream: seq<u8>, disp: u32, i: nat)
    requires i + 4 <= |stream| && stream[i..i + 4] == Bytes32(disp)
    ensures Dword32(stream, i) == disp
  {
    var b := stream[i..i + 4];
    assert b[0] == stream[i] && b[1] == stream[i + 1] && b[2] == stream[i + 2] && b[3] == stream[i + 3];
  }

  lemma Fields(mode: u2, reg: u3, rm: u3)
    ensures var b := mode * 64 + reg * 8 + rm;
            b < 0x100 && b / 64 == mode && b % 8 == rm && b / 8 % 8 == reg
  {
  }

  /** The stream holds `bytes` after the opcode. */
  lemma BytesInStream(opcode: u8, bytes: seq<u8>, rest: seq<u8>, disp: u32, n: nat)
    requires n <= |bytes|
    ensures var stream := [opcode] + bytes + rest;
            && (forall i :: 0 <= i < |bytes| ==> ByteOf(stream, 1 + i) == bytes[i])
            && (bytes[n..] == Bytes32(disp) ==> Dword32(stream, 1 + n) == disp)
  {
    var stream := [opcode] + bytes + rest;
    assert forall i :: 0 <= i < |bytes| ==> stream[1 + i] == bytes[i];
    if bytes[n..] == Bytes32(disp) {
      assert stream[1 + n..1 + n + 4] == bytes[n..];
      DispDecodes(stream, disp, 1 + n);
    }
  }

  /** Parsing succeeds when the bytes it calls for are there. */
  lemma LongEnough(stream: seq<u8>)
    requires |stream| >= 5 && |stream| > ManualLength(stream)
    ensures FromBytes(stream).Ok?
  {
  }

  /** Without a base register the displacement is a dword. */
  lemma EncodesWithoutBase(opcode: u8, reg: u3, m: MemoryOperand, rest: seq<u8>, size: ValueSize)
    requires m.Encodable() && m.base.None? && |Encode(reg, m)| + |rest| >= 4
    ensures var r := FromBytes([opcode] + Encode(reg, m) + rest);
            && r.Ok? && r.value.size == |Encode(reg, m)| && r.value.modrm.reg == reg
            && OperandAt(Located(r.value, size).location) == Some(m)
  {
    hide FromBytes, Dword32, Bytes32;
    var bytes := Encode(reg, m);
    var stream := [opcode] + bytes + rest;
    var n := if m.index.None? then 1 else 2;
    assert bytes[n..] == Bytes32(m.disp);
    BytesInStream(opcode, bytes, rest, m.disp, n);
    Fields(0, reg, if m.index.None? then 5 else 4);
    assert ByteOf(stream, 1) == bytes[0];
    if m.index.Some? {
      assert ByteOf(stream, 2) == bytes[1];
      Fields(m.index.value.1, m.index.value.0, 5);
    }
    LongEnough(stream);
    ParsedFields(stream);
  }

  /** The displacement of an operand with a base register, read back by its mode. */
  lemma DispReadsBack(opcode: u8, bytes: seq<u8>, rest: seq<u8>, n: nat, base: u3, disp: u32)
    requires n <= |bytes| && bytes[n..] == DispBytes(ModeFor(base, disp), disp)
    ensures var stream := [opcode] + bytes + rest;
            var mode := ModeFor(base, disp);
            && (mode == 0 ==> disp == 0 && base != EBP && |bytes| == n)
            && (mode == 1 ==> Sx8To32(ByteOf(stream, 1 + n)) == disp && |bytes| == n + 1)
            && (mode == 2 ==> Dword32(stream, 1 + n) == disp && |bytes| == n + 4)
            && mode != 3
  {
    hide Dword32;
    BytesInStream(opcode, bytes, rest, disp, n);
    if ModeFor(base, disp) == 1 {
      assert bytes[n] == bytes[n..][0] == disp % 0x100;
      assert ByteOf([opcode] + bytes + rest, 1 + n) == bytes[n];
      SignedByteBack(disp);
    }
  }

  lemma EncodesBase(opcode: u8, reg: u3, m: MemoryOperand, rest: seq<u8>, size: ValueSize)
    requires m.base.Some? && m.index.None? && m.base.value != ESP && |Encode(reg, m)| + |rest| >= 4
    ensures var r := FromBytes([opcode] + Encode(reg, m) + rest);
            && r.Ok? && r.value.size == |Encode(reg, m)| && r.value.modrm.reg == reg
            && OperandAt(Located(r.value, size).location) == Some(m)
  {
    hide FromBytes, Dword32, Bytes32, ModeFor;
    var bytes := Encode(reg, m);
    var stream := [opcode] + bytes + rest;
    var mode := ModeFor(m.base.value, m.disp);
    assert bytes[1..] == DispBytes(mode, m.disp);
    BytesInStream(opcode, bytes, rest, m.disp, 1);
    DispReadsBack(opcode, bytes, rest, 1, m.base.value, m.disp);
    Fields(mode, reg, m.base.value);
    assert ByteOf(stream, 1) == bytes[0];
    LongEnough(stream);
    ParsedFields(stream);
  }

  lemma EncodesSib(opcode: u8, reg: u3, m: MemoryOperand, rest: seq<u8>, size: ValueSize)
    requires m.Encodable() && m.base.Some? && (m.index.Some? || m.base.value == ESP) && |Encode(reg, m)| + |rest| >= 4
    ensures var r := FromBytes([opcode] + Encode(reg, m) + rest);
            && r.Ok? && r.value.size == |Encode(reg, m)| && r.value.modrm.reg == reg
            && OperandAt(Located(r.value, size).location) == Some(m)
  {
    hide FromBytes, Dword32, Bytes32, ModeFor;
    var bytes := Encode(reg, m);
    var stream := [opcode] + bytes + rest;
    var base := m.base.value;
    var mode := ModeFor(base, m.disp);
    assert bytes[2..] == DispBytes(mode, m.disp);
    BytesInStream(opcode, bytes, rest, m.disp, 2);
    DispReadsBack(opcode, bytes, rest, 2, base, m.disp);
    Fields(mode, reg, 4);
    if m.index.Some? {
      Fields(m.index.value.1, m.index.value.0, base);
    } else {
      Fields(0, 4, base);
    }
    assert ByteOf(stream, 1) == bytes[0] && ByteOf(stream, 2) == bytes[1];
    LongEnough(stream);
    ParsedFields(stream);
  }

  /** The decoder undoes the encoder: it reads exactly the encoded bytes, and
      finds the register field and the operand that were put in. */
  lemma DecodeEncode(opcode: u8, reg: u3, m: MemoryOperand, rest: seq<u8>, size: ValueSize)
    requires m.Encodable() && |Encode(reg, m)| + |rest| >= 4
    ensures var r := FromBytes([opcode] + Encode(reg, m) + rest);
            && r.Ok? && r.value.size == |Encode(reg, m)| && r.value.modrm.reg == reg
            && OperandAt(Located(r.value, size).location) == Some(m)
  {
    hide FromBytes, Encode, OperandAt;
    if m.base.None? {
      EncodesWithoutBase(opcode, reg, m, rest, size);
    } else if m.index.None? && m.base.value != ESP {
      EncodesBase(opcode, reg, m, rest, size);
    } else {
      EncodesSib(opcode, reg, m, rest, size);
    }
  }

  /** base + index * 2^scale + disp modulo 2^32. */
  function AddressOf(regs: Regs, m: MemoryOperand): u32 {
    var index := if m.index.Some? then regs[m.index.value.0] as int else 0;
    var factor := if m.index.None? || m.index.value.1 == 0 then 1
                  else if m.index.value.1 == 1 then 2 else if m.index.value.1 == 2 then 4 else 8;
    Wrap32((if m.base.Some? then regs[m.base.value] as int else 0) + index * factor + m.disp as int)
  }

  lemma LocationAddress(regs: Regs, loc: ArgLocation, m: MemoryOperand)
    requires OperandAt(loc) == Some(m)
    ensures GetArgLea(regs, loc) == Ok(AddressOf(regs, m))
  {
    if loc.SIBAddress? {
      var index := RegOr0(regs, loc.index);
      var base := RegOr0(regs, loc.base);
      var scaled := index as int * loc.scale;
      WrapTwice(scaled, base);
      WrapTwice(base + scaled, loc.disp);
      assert ModRMEffectiveAddress(regs, loc) == Wrap32(base + scaled + loc.disp);
    }
  }

  /** An encoded operand, decoded and resolved, is at its address. */
  lemma EncodedAddress(opcode: u8, reg: u3, m: MemoryOperand, rest: seq<u8>, size: ValueSize, regs: Regs)
    requires m.Encodable() && |Encode(reg, m)| + |rest| >= 4
    ensures var r := FromBytes([opcode] + Encode(reg, m) + rest);
            r.Ok? && GetArgLea(regs, Located(r.value, size).location) == Ok(AddressOf(regs, m))
  {
    hide FromBytes, Encode, OperandAt, AddressOf, GetArgLea;
    DecodeEncode(opcode, reg, m, rest, size);
    LocationAddress(regs, Located(FromBytes([opcode] + Encode(reg, m) + rest).value, size).location, m);
  }
}

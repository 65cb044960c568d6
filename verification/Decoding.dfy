// Mod R/M, SIB and operand decoding.

module Decoding {
  import opened Words
  import opened Errors
  import opened Structs
  import VMState
  import opened Opcodes

  function U32FromBytes(b: seq<u8>): Result<u32> {
    if |b| < 4 then Err(DecodingOverrun) else Ok(Le32(b[..4]))
  }

  function U16FromBytes(b: seq<u8>): Result<u16> {
    if |b| < 2 then Err(DecodingOverrun) else Ok(Le16(b[..2]))
  }

  function U8FromBytes(b: seq<u8>): Result<u8> {
    if |b| < 1 then Err(DecodingOverrun) else Ok(b[0])
  }

  datatype ModRMByte = ModRMByte(rm: u3, reg: u3, mode: u2)

  datatype SIBByte = SIBByte(base: u3, index: u3, scale: u2)

  function ParseModRM(b: u8): ModRMByte {
    ModRMByte(b % 8, b / 8 % 8, b / 64)
  }

  function ParseSIB(b: u8): SIBByte {
    SIBByte(b % 8, b / 8 % 8, b / 64)
  }

  const NO_SIB := SIBByte(0, 0, 0)

  /** ModRM::decode */
  function DecodeModRM(m: ModRMByte, sib: SIBByte, disp: u32, size: ValueSize): OpArgument {
    if m.mode == 3 then OpArgument(RegisterValue(m.rm, size), false)
    else if m.mode == 0 && m.rm == 5 then OpArgument(Address(disp, size), true)
    else if m.mode == 0 && m.rm != 4 then OpArgument(RegisterAddress(m.rm, size), true)
    else if m.rm != 4 then OpArgument(ModRMAddress(Some(disp), Some(m.rm), size), true)
    else
      var base := if sib.base != 5 then Some(sib.base) else if m.mode == 0 then None else Some(VMState.EBP);
      var index := if sib.index == 4 then None else Some(sib.index);
      var scale := if sib.scale == 0 then 1 else if sib.scale == 1 then 2 else if sib.scale == 2 then 4 else 8;
      OpArgument(SIBAddress(disp, base, scale, index, size), true)
  }

  datatype ParsedModRM = ParsedModRM(modrm: ModRMByte, sib: Option<SIBByte>, disp: Option<u32>, size: u8)

  const DEFAULT_MODRM := ParsedModRM(ModRMByte(0, 0, 0), None, None, 0)

  /** ParsedModRM::from_bytes, on the stream that starts at the opcode byte. */
  function FromBytes(stream: seq<u8>): (r: Result<ParsedModRM>)
    ensures r.Ok? ==> 1 <= r.value.size <= 6 && r.value.size < |stream|
    ensures r.Err? ==> r.error.Ordinary()
  {
    if |stream| < 5 then Err(DecodingOverrun)
    else
      var modrm := ParseModRM(stream[1]);
      var sib := if modrm.mode != 3 && modrm.rm == 4 then Some(ParseSIB(stream[2])) else None;
      var size := if sib.Some? then 2 else 1;
      var bytes := stream[1 + size..];
      var sibBase := if sib.Some? then sib.value.base else 0;
      if (modrm.mode == 0 && modrm.rm == 5) || modrm.mode == 2 || (modrm.mode == 0 && sibBase == 5) then
        var d :- U32FromBytes(bytes);
        Ok(ParsedModRM(modrm, sib, Some(d), size + 4))
      else if modrm.mode == 1 then
        match U8FromBytes(bytes)
        case Ok(d) => Ok(ParsedModRM(modrm, sib, Some(Sx8To32(d)), size + 1))
        case Err(e) => Err(e)
      else
        Ok(ParsedModRM(modrm, sib, None, size))
  }

  method ParseFromBytes(stream: seq<u8>) returns (r: Result<ParsedModRM>)
    ensures r == FromBytes(stream)
  {
    if |stream| < 5 {
      return Err(DecodingOverrun);
    }
    var bytes := stream[1..];
    var size := 0;
    var modrm := ParseModRM(bytes[0]);
    bytes := bytes[1..];
    size := size + 1;
    var sib: Option<SIBByte> := None;
    if modrm.mode != 3 && modrm.rm == 4 {
      sib := Some(ParseSIB(bytes[0]));
      bytes := bytes[1..];
      size := size + 1;
    }
    assert bytes == stream[1 + size..];
    var disp: Option<u32> := None;
    var sibBase := if sib.Some? then sib.value.base else 0;
    if (modrm.mode == 0 && modrm.rm == 5) || modrm.mode == 2 || (modrm.mode == 0 && sibBase == 5) {
      var d :- U32FromBytes(bytes);
      disp := Some(d);
      size := size + 4;
    } else if modrm.mode == 1 {
      match U8FromBytes(bytes) {
        case Ok(d) => disp := Some(Sx8To32(d));
        case Err(e) => return Err(e);
      }
      size := size + 1;
    }
    return Ok(ParsedModRM(modrm, sib, disp, size));
  }

  /** One operand and the number of stream bytes it takes. A byte immediate is
      indexed without a length check. */
  function DecodeArg(source: ArgSource, size: ValueSize, opcode: u8, bytes: seq<u8>, m: ParsedModRM)
    : (r: Result<(OpArgument, u3)>)
    ensures r.Ok? ==> r.value.1 <= |bytes| && r.value.1 <= 4
    ensures r.Err? ==> r.error.Ordinary()
  {
    match source
    case SourceNone => Ok((NO_ARGUMENT, 0))
    case ModRM =>
      var sib := if m.sib.Some? then m.sib.value else NO_SIB;
      Ok((DecodeModRM(m.modrm, sib, if m.disp.Some? then m.disp.value else 0, size), 0))
    case ModRMReg => Ok((OpArgument(RegisterValue(m.modrm.reg, size), false), 0))
    case ImmediateAddress =>
      var a :- U32FromBytes(bytes);
      Ok((OpArgument(Address(a, size), true), 4))
    case ImmediateValue => DecodeImmediate(size, bytes)
    case JumpRel => DecodeImmediate(size, bytes)
    case RegisterSuffix => Ok((OpArgument(RegisterValue(opcode % 8, size), false), 0))
    case Literal(l) => Ok((OpArgument(Immediate(l), false), 0))
    case HardcodedRegister(reg) => Ok((OpArgument(RegisterValue(reg, size), true), 0))
  }

  function DecodeImmediate(size: ValueSize, bytes: seq<u8>): (r: Result<(OpArgument, u3)>)
    ensures r.Ok? ==> r.value.1 <= |bytes| && r.value.1 <= 4 && r.value.0.location.Immediate?
    ensures r.Err? ==> r.error.Ordinary()
  {
    match size
    case SizeNone => Ok((OpArgument(Immediate(NoValue), false), 0))
    case SizeByte => if bytes == [] then Err(Panicked) else Ok((OpArgument(Immediate(Byte(bytes[0])), false), 1))
    case SizeWord =>
      var w :- U16FromBytes(bytes);
      Ok((OpArgument(Immediate(Word(w)), false), 2))
    case SizeDword =>
      var d :- U32FromBytes(bytes);
      Ok((OpArgument(Immediate(Dword(d)), false), 4))
    case SizeQword => Ok((OpArgument(Immediate(NoValue), false), 0))
  }

  /** Decodes operands n.. into the array `args`, whose earlier cells are done. */
  function DecodeArgsFrom(o: Opcode, n: nat, opcode: u8, bytes: seq<u8>, size: nat, args: Args,
                          sizeOverride: bool, m: ParsedModRM): (r: Result<(Args, nat)>)
    requires n <= 3
    ensures r.Ok? ==> size <= r.value.1 <= size + |bytes|
    ensures r.Err? ==> r.error.Ordinary()
    decreases 3 - n, size
  {
    if n == 3 then Ok((args, size))
    else
      var (arg, advance) :- DecodeArg(o.source[n], o.size[n].ToFixed(sizeOverride), opcode, bytes, m);
      DecodeArgsFrom(o, n + 1, opcode, bytes[advance..], size + advance, args[n := arg], sizeOverride, m)
  }

  /** decode_args_with_modrm: fills `args` and gives the length of opcode and operands. */
  function DecodeArgs(o: Opcode, stream: seq<u8>, args: Args, sizeOverride: bool, parsed: Option<ParsedModRM>)
    : (r: Result<(Args, nat)>)
    ensures r.Ok? ==> 1 <= r.value.1 <= |stream|
    ensures r.Err? ==> r.error.Ordinary()
  {
    if |stream| < 6 then Err(DecodingOverrun)
    else
      var m := if parsed.Some? then parsed.value else DEFAULT_MODRM;
      if m.size >= |stream| then Err(Panicked)
      else DecodeArgsFrom(o, 0, stream[0], stream[1 + m.size..], 1 + m.size, args, sizeOverride, m)
  }

  /** Whatever the argument array held before, decoding overwrites all of it. */
  lemma DecodeArgsOverwrites(o: Opcode, stream: seq<u8>, a: Args, b: Args, sizeOverride: bool, parsed: Option<ParsedModRM>)
    ensures DecodeArgs(o, stream, a, sizeOverride, parsed) == DecodeArgs(o, stream, b, sizeOverride, parsed)
  {
    hide DecodeArgsFrom;
    var m := if parsed.Some? then parsed.value else DEFAULT_MODRM;
    if |stream| >= 6 && m.size < |stream| {
      OverwritesFrom(o, 0, stream[0], stream[1 + m.size..], 1 + m.size, a, b, sizeOverride, m);
    }
  }

  lemma {:induction false} OverwritesFrom(o: Opcode, n: nat, opcode: u8, bytes: seq<u8>, size: nat, a: Args, b: Args,
                                          sizeOverride: bool, m: ParsedModRM)
    requires n <= 3 && a[..n] == b[..n]
    ensures DecodeArgsFrom(o, n, opcode, bytes, size, a, sizeOverride, m)
         == DecodeArgsFrom(o, n, opcode, bytes, size, b, sizeOverride, m)
    decreases 3 - n
  {
    hide DecodeArg;
    if n == 3 {
      assert a == a[..3] && b == b[..3];
    } else {
      var r := DecodeArg(o.source[n], o.size[n].ToFixed(sizeOverride), opcode, bytes, m);
      if r.Ok? {
        var (arg, advance) := r.value;
        assert a[n := arg][..n + 1] == a[..n] + [arg] && b[n := arg][..n + 1] == b[..n] + [arg];
        OverwritesFrom(o, n + 1, opcode, bytes[advance..], size + advance, a[n := arg], b[n := arg], sizeOverride, m);
      }
    }
  }

  method DecodeArgsWithModRM(o: Opcode, stream: seq<u8>, args: Args, sizeOverride: bool, parsed: Option<ParsedModRM>)
    returns (r: Result<(Args, nat)>)
    ensures r == DecodeArgs(o, stream, args, sizeOverride, parsed)
  {
    hide DecodeArg;
    if |stream| < 6 {
      return Err(DecodingOverrun);
    }
    var opcode := stream[0];
    var modrm := if parsed.Some? then parsed.value else DEFAULT_MODRM;
    if modrm.size >= |stream| {
      return Err(Panicked);
    }
    var bytes := stream[1 + modrm.size..];
    var size: nat := 1 + modrm.size;
    var filled := args;
    for n := 0 to 3
      invariant DecodeArgsFrom(o, n, opcode, bytes, size, filled, sizeOverride, modrm)
             == DecodeArgs(o, stream, args, sizeOverride, parsed)
    {
      var argSize := o.size[n].ToFixed(sizeOverride);
      var decoded :- DecodeArg(o.source[n], argSize, opcode, bytes, modrm);
      filled := filled[n := decoded.0];
      bytes := bytes[decoded.1..];
      size := size + decoded.1;
    }
    return Ok((filled, size));
  }
}

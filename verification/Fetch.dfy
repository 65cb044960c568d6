// Fetching and decoding one instruction into a pipeline slot.

module Fetch {
  import opened Words
  import opened Errors
  import Structs
  import Memory
  import opened VMState
  import opened Opcodes
  import Decoding

  /** One cell of the pipeline. */
  datatype Slot = Slot(op: Op, args: Structs.Args, gasCost: u64, eipSize: u8, sizeOverride: bool, opcode: u8)

  const DEFAULT_SLOT := Slot(Nop, Structs.NO_ARGS, 0, 1, false, 0)

  datatype RepMode = NoRep | RepEqual | RepNotEqual

  datatype Prefixes = Prefixes(sizeOverride: bool, twoBytes: bool, rep: RepMode)

  const NO_PREFIXES := Prefixes(false, false, NoRep)

  /** get_prefixes: the prefixes seen and how many bytes they take. Running off
      the window and the address-size prefix 0x67 both panic. */
  function ScanPrefixes(p: Prefixes, buffer: seq<u8>, size: nat): (r: Result<(Prefixes, nat)>)
    ensures r.Ok? ==> size <= r.value.1 <= size + |buffer|
    ensures r.Ok? ==> (p.rep == NoRep || r.value.0.rep != NoRep)
    ensures r.Err? ==> r.error == Panicked
    decreases buffer
  {
    if buffer == [] then Err(Panicked)
    else match buffer[0]
      case 0x66 => ScanPrefixes(p.(sizeOverride := true), buffer[1..], size + 1)
      case 0x0F => Ok((p.(twoBytes := true), size + 1))
      case 0x67 => Err(Panicked)
      case 0xF2 => ScanPrefixes(p.(rep := RepNotEqual), buffer[1..], size + 1)
      case 0xF3 => ScanPrefixes(p.(rep := RepEqual), buffer[1..], size + 1)
      case _ => Ok((p, size))
  }

  /** What decoding one instruction gives: its slot, where decoding goes on, and
      whether it has to stop here. */
  datatype Decoded = Decoded(slot: Slot, next: u32, stop: bool)

  function MemoryGas(costs: Costs, args: Structs.Args): int {
    (if args[0].isMemory then Cost(costs, MemoryAccess) as int else 0)
    + (if args[1].isMemory then Cost(costs, MemoryAccess) as int else 0)
    + (if args[2].isMemory then Cost(costs, MemoryAccess) as int else 0)
  }

  function WriteableGas(costs: Costs, writeable: bool): int {
    if writeable then Cost(costs, WriteableMemoryExec) as int else 0
  }

  /** The eip that makes the main loop, which adds the size, land on the target.
      Both the decoder and the jump functions compute it this way. */
  function JumpBase(eip: u32, size: u8, rel: u32): u32 {
    Wrap32(Wrap32(Wrap32(eip + size) + rel) - size as int)
  }

  /** A slot for a rep prefix. Its arguments are left as the array had them. */
  function DecodeRep(costs: Costs, p: Prefixes, size: u8, opcode: u8, eip: u32, writeable: bool, prev: Slot): Decoded
    requires size < 16
  {
    Decoded(prev.(op := if p.rep == RepEqual then Repe else Repne,
                 gasCost := Wrap64(Cost(costs, Moderate) as int + WriteableGas(costs, writeable)),
                 eipSize := size + 1, sizeOverride := p.sizeOverride, opcode := opcode),
            eip, true)
  }

  /** The table entry, operands and length of an instruction. */
  datatype Fields = Fields(o: Opcode, hasModRM: bool, args: Structs.Args, size: u8, sizeOverride: bool, opcode: u8)

  /** Reading an instruction without a rep prefix: the table entry its opcode
      byte selects and the operands that follow, into arguments `prev`. */
  function ReadFields(table: Table, p: Prefixes, size: nat, buffer: seq<u8>, prev: Structs.Args): (r: Result<Fields>)
    requires buffer != [] && size + |buffer| == 16
    ensures r.Err? ==> r.error.Ordinary()
  {
    var index := buffer[0] as int + if p.twoBytes then 0x100 else 0;
    if index >= OPCODE_TABLE_SIZE then Err(Panicked)
    else
      var prop := table(index);
      if prop.hasModRM then
        var parsed :- Decoding.FromBytes(buffer);
        var o := prop.opcodes[parsed.modrm.reg];
        var (args, length) :- Decoding.DecodeArgs(o, buffer, prev, p.sizeOverride, Some(parsed));
        Ok(Fields(o, true, args, length + size, p.sizeOverride, buffer[0]))
      else
        var o := prop.opcodes[0];
        var (args, length) :- Decoding.DecodeArgs(o, buffer, prev, p.sizeOverride, None);
        Ok(Fields(o, false, args, length + size, p.sizeOverride, buffer[0]))
  }

  function FieldsGas(costs: Costs, f: Fields, writeable: bool): u64 {
    Wrap64((if f.hasModRM then Cost(costs, ModRMSurcharge) as int else 0)
           + Cost(costs, f.o.gas) as int
           + (if f.o.behavior == Unpredictable then Cost(costs, ConditionalBranch) as int else 0)
           + MemoryGas(costs, f.args) + WriteableGas(costs, writeable))
  }

  /** The slot for what was read, by the pipeline behaviour of its opcode. */
  function DecodeFields(s: State, f: Fields, eip: u32, writeable: bool): (r: Result<Decoded>)
    ensures r.Err? ==> r.error.Ordinary()
  {
    var slot := Slot(f.o.op, f.args, FieldsGas(s.costs, f, writeable), f.size, f.sizeOverride, f.opcode);
    match f.o.behavior
    case Plain => Ok(Decoded(slot, Wrap32(eip + f.size), writeable))
    case Unpredictable => Ok(Decoded(slot, Wrap32(eip + 2 * f.size), true))
    case UnpredictableNoGas => Ok(Decoded(slot, Wrap32(eip + 2 * f.size), true))
    case RelativeJump =>
      var v :- GetArg(s.cpu.regs, s.cpu.mem, f.args[0].location);
      var rel :- v.U32Sx();
      var base := JumpBase(eip, f.size, rel);
      if f.sizeOverride then Err(ReadBadMemory(base % 0x1_0000))
      else Ok(Decoded(slot, Wrap32(base + f.size), writeable))
  }

  /** Decoding the instruction whose 16-byte window is `window`, into the slot
      that held `prev`. */
  function DecodeWindow(table: Table, s: State, window: seq<u8>, eip: u32, writeable: bool, prev: Slot)
    : (r: Result<Decoded>)
    requires |window| == 16
    ensures r.Err? ==> r.error.Ordinary()
  {
    var (p, size) :- ScanPrefixes(NO_PREFIXES, window, 0);
    if size == 16 then Err(Panicked)
    else if p.rep != NoRep then Ok(DecodeRep(s.costs, p, size, window[size], eip, writeable, prev))
    else
      var f :- ReadFields(table, p, size, window[size..], prev.args);
      DecodeFields(s, f, eip, writeable)
  }

  /** Fetching and decoding at an address. */
  function DecodeAt(table: Table, s: State, eip: u32, writeable: bool, prev: Slot): (r: Result<Decoded>)
    ensures r.Err? ==> r.error.Ordinary()
  {
    var window :- Memory.Read(s.cpu.mem, eip, 16);
    DecodeWindow(table, s, window, eip, writeable, prev)
  }
}

// Filling the pipeline array, running it, and the main loop, on the virtual
// machine object.

module Execution {
  import opened Words
  import opened Errors
  import Structs
  import opened VMState
  import opened Opcodes
  import Decoding
  import opened Fetch
  import opened Pipeline
  import Refinement
  import Runs
  import opened Ops
  import opened X86
  import opened Programs
  import opened Termination
  import opened VirtualMachine
  import OpcodeFunctions

  const PIPELINE_SIZE := 16

  class PrefixesActivated {
    var sizeOverride: bool
    var twoBytes: bool
    var repMode: RepMode

    function Value(): Prefixes
      reads this
    {
      Prefixes(sizeOverride, twoBytes, repMode)
    }

    constructor ()
      ensures Value() == NO_PREFIXES
    {
      sizeOverride, twoBytes, repMode := false, false, NoRep;
    }

    method GetPrefixes(buffer: seq<u8>, prefixSize: nat) returns (r: Result<nat>)
      modifies this
      ensures var scan := ScanPrefixes(old(Value()), buffer, prefixSize);
              if scan.Ok? then r == Ok(scan.value.1) && Value() == scan.value.0 else r == Err(scan.error)
      decreases buffer
    {
      if buffer == [] {
        return Err(Panicked);
      }
      match buffer[0] {
        case 0x66 =>
          sizeOverride := true;
          r := GetPrefixes(buffer[1..], prefixSize + 1);
        case 0x0F =>
          twoBytes := true;
          return Ok(prefixSize + 1);
        case 0x67 =>
          return Err(Panicked);
        case 0xF2 =>
          repMode := RepNotEqual;
          r := GetPrefixes(buffer[1..], prefixSize + 1);
        case 0xF3 =>
          repMode := RepEqual;
          r := GetPrefixes(buffer[1..], prefixSize + 1);
        case _ =>
          return Ok(prefixSize);
      }
    }
  }

  // ---------- one slot ----------

  lemma WrapSum(x: int, y: int)
    ensures Wrap64(Wrap64(x) as int + y) == Wrap64(x + y)
  {
  }

  /** The surcharge for the first n operands that are in memory. */
  function MemoryGasOf(costs: Costs, args: Structs.Args, n: nat): (g: int)
    requires n <= 3
    ensures n == 3 ==> g == MemoryGas(costs, args)
  {
    (if n > 0 && args[0].isMemory then Cost(costs, MemoryAccess) as int else 0)
    + (if n > 1 && args[1].isMemory then Cost(costs, MemoryAccess) as int else 0)
    + (if n > 2 && args[2].isMemory then Cost(costs, MemoryAccess) as int else 0)
  }

  /** The gas of an instruction, summed up piece by piece. */
  method ChargeFields(vm: VM, f: Fields, writeable: bool) returns (gasCost: u64)
    ensures gasCost == FieldsGas(vm.charger, f, writeable)
  {
    hide Wrap64, Cost;
    var costs := vm.charger;
    ghost var total: int := if f.hasModRM then Cost(costs, ModRMSurcharge) as int else 0;
    gasCost := 0;
    Zero64(Cost(costs, ModRMSurcharge));
    if f.hasModRM {
      gasCost := Cost(costs, ModRMSurcharge);
    }
    WrapSum(total, Cost(costs, f.o.gas));
    gasCost := Wrap64(gasCost as int + Cost(costs, f.o.gas) as int);
    total := total + Cost(costs, f.o.gas) as int;
    if f.o.behavior == Unpredictable {
      WrapSum(total, Cost(costs, ConditionalBranch));
      gasCost := Wrap64(gasCost as int + Cost(costs, ConditionalBranch) as int);
      total := total + Cost(costs, ConditionalBranch) as int;
    }
    for i := 0 to 3
      invariant gasCost == Wrap64(total + MemoryGasOf(costs, f.args, i))
    {
      if f.args[i].isMemory {
        WrapSum(total + MemoryGasOf(costs, f.args, i), Cost(costs, MemoryAccess));
        gasCost := Wrap64(gasCost as int + Cost(costs, MemoryAccess) as int);
      }
    }
    total := total + MemoryGas(costs, f.args);
    if writeable {
      WrapSum(total, Cost(costs, WriteableMemoryExec));
      gasCost := Wrap64(gasCost as int + Cost(costs, WriteableMemoryExec) as int);
    }
  }

  lemma Zero64(x: u64)
    ensures Wrap64(0) == 0 && Wrap64(x) == x
  {
  }

  /** The operands of an instruction without a rep prefix. */
  method ReadOperands(table: Table, prefixes: Prefixes, prefixSize: nat, buffer: seq<u8>, prev: Structs.Args)
    returns (r: Result<Fields>)
    requires buffer != [] && prefixSize + |buffer| == 16
    ensures r == ReadFields(table, prefixes, prefixSize, buffer, prev)
  {
    hide Decoding.FromBytes, Decoding.DecodeArgs;
    var index := buffer[0] as int + if prefixes.twoBytes then 0x100 else 0;
    if index >= OPCODE_TABLE_SIZE {
      return Err(Panicked);
    }
    var prop := table(index);
    var modrm: Option<Decoding.ParsedModRM> := None;
    var opcode := prop.opcodes[0];
    if prop.hasModRM {
      var parsed :- Decoding.ParseFromBytes(buffer);
      modrm := Some(parsed);
      opcode := prop.opcodes[parsed.modrm.reg];
    }
    var decoded :- Decoding.DecodeArgsWithModRM(opcode, buffer, prev, prefixes.sizeOverride, modrm);
    return Ok(Fields(opcode, prop.hasModRM, decoded.0, decoded.1 + prefixSize, prefixes.sizeOverride, buffer[0]));
  }

  /** What the loop of fill_pipeline does with a slot it fills: the new slot, the
      eip after it, and whether to stop. */
  method FillSlot(vm: VM, table: Table, p: Slot, eip: u32, writeable: bool) returns (r: Result<Decoded>)
    requires vm.Valid()
    ensures r == DecodeAt(table, vm.Snapshot(), eip, writeable, p)
  {
    hide Memory.Read, ReadFields, ScanPrefixes, FieldsGas, VMState.GetArg, Cost;
    var window :- Memory.Read(vm.memory.blocks, eip, 16);
    var prefixes := new PrefixesActivated();
    var prefixSize :- prefixes.GetPrefixes(window, 0);
    if prefixSize == 16 {
      return Err(Panicked);
    }
    var buffer := window[prefixSize..];
    if prefixes.repMode != NoRep {
      var gasCost := Cost(vm.charger, Moderate) as int;
      if writeable {
        gasCost := Wrap64(gasCost + Cost(vm.charger, WriteableMemoryExec) as int);
      }
      var slot := p.(sizeOverride := prefixes.sizeOverride, gasCost := gasCost, eipSize := prefixSize + 1,
                     opcode := buffer[0], op := if prefixes.repMode == RepEqual then Repe else Repne);
      return Ok(Decoded(slot, eip, true));
    }
    var f :- ReadOperands(table, prefixes.Value(), prefixSize, buffer, p.args);
    var gasCost := ChargeFields(vm, f, writeable);
    var slot := Slot(f.o.op, f.args, gasCost, f.size, f.sizeOverride, f.opcode);
    match f.o.behavior {
      case Plain =>
        return Ok(Decoded(slot, Wrap32(eip + f.size), writeable));
      case Unpredictable =>
        return Ok(Decoded(slot, Wrap32(eip + 2 * f.size), true));
      case UnpredictableNoGas =>
        return Ok(Decoded(slot, Wrap32(eip + 2 * f.size), true));
      case RelativeJump =>
        var v :- vm.GetArg(f.args[0].location);
        var rel :- v.U32Sx();
        var base := JumpBase(eip, f.size, rel);
        if f.sizeOverride {
          return Err(ReadBadMemory(base % 0x1_0000));
        }
        return Ok(Decoded(slot, Wrap32(base + f.size), writeable));
    }
  }

  // ---------- the array ----------

  method ClearPipeline(pipeline: array<Slot>)
    modifies pipeline
    ensures pipeline[..] == Cleared(old(pipeline[..]))
  {
    for n := 0 to pipeline.Length
      invariant pipeline[..] == if n == 0 then old(pipeline[..]) else Cleared(old(pipeline[..]))
    {
      pipeline[0] := DEFAULT_SLOT;
    }
  }

  /** What filling the rest makes of the whole, when `front` is filled already. */
  function Prepend(front: seq<Slot>, rest: Result<seq<Slot>>): Result<seq<Slot>> {
    match rest
    case Ok(slots) => Ok(front + slots)
    case Err(e) => Err(e)
  }

  lemma PrependNothing(rest: Result<seq<Slot>>)
    ensures Prepend([], rest) == rest
  {
    if rest.Ok? {
      assert [] + rest.value == rest.value;
    }
  }

  lemma PrependTwice(front: seq<Slot>, p: Slot, rest: Result<seq<Slot>>)
    ensures Prepend(front, Prepend([p], rest)) == Prepend(front + [p], rest)
  {
    if rest.Ok? {
      assert front + ([p] + rest.value) == front + [p] + rest.value;
    }
  }

  lemma FillNext(m: Machine, s: State, eip: u32, gas: u64, writeable: bool, prev: seq<Slot>)
    requires prev != []
    ensures FillFrom(m, s, eip, gas, true, writeable, prev)
         == Prepend([Padding(prev[0])], FillFrom(m, s, eip, gas, true, writeable, prev[1..]))
    ensures var d := m.decode(s, eip, writeable, prev[0]);
            FillFrom(m, s, eip, gas, false, writeable, prev) ==
              if d.Err? then Err(d.error)
              else var left := SatSub(gas, d.value.slot.gasCost);
                   Prepend([d.value.slot],
                           FillFrom(m, s, d.value.next, left, d.value.stop || left == 0, writeable, prev[1..]))
  {
  }

  method FillPipeline(vm: VM, table: Table, pipeline: array<Slot>, ghost hv: Hypervisor) returns (r: Result<()>)
    requires vm.Valid()
    modifies pipeline
    ensures var filled := Fill(MachineOf(table, hv), vm.Snapshot(), old(pipeline[..]));
            if filled.Ok? then r == Ok(()) && pipeline[..] == filled.value else r == Err(filled.error)
  {
    hide DecodeAt, Exec, FillFrom;
    ghost var m, s := MachineOf(table, hv), vm.Snapshot();
    var eip := vm.eip;
    var stopFilling := false;
    var runningGas := vm.gasRemaining;
    var writeable := InWriteable(vm.eip);
    ClearPipeline(pipeline);
    ghost var cleared := pipeline[..];
    ghost var whole := FillFrom(m, s, eip, runningGas, false, writeable, cleared);
    assert cleared == cleared[0..];
    PrependNothing(whole);
    for n := 0 to pipeline.Length
      invariant pipeline[n..] == cleared[n..] && vm.Snapshot() == s
      invariant Prepend(pipeline[..n], FillFrom(m, s, eip, runningGas, stopFilling, writeable, cleared[n..])) == whole
    {
      ghost var front := pipeline[..n];
      FillNext(m, s, eip, runningGas, writeable, cleared[n..]);
      assert cleared[n..][1..] == cleared[n + 1..] && cleared[n..][0] == pipeline[n];
      if stopFilling {
        pipeline[n] := Padding(pipeline[n]);
      } else {
        var d :- FillSlot(vm, table, pipeline[n], eip, writeable);
        pipeline[n] := d.slot;
        eip := d.next;
        runningGas := SatSub(runningGas, d.slot.gasCost);
        stopFilling := d.stop || runningGas == 0;
      }
      assert pipeline[..n + 1] == front + [pipeline[n]];
      PrependTwice(front, pipeline[n],
                   FillFrom(m, s, eip, runningGas, stopFilling, writeable, cleared[n + 1..]));
    }
    NothingLeft(m, s, eip, runningGas, stopFilling, writeable);
    assert pipeline[..] == pipeline[..pipeline.Length] && cleared[pipeline.Length..] == [];
    return Ok(());
  }

  lemma NothingLeft(m: Machine, s: State, eip: u32, gas: u64, stop: bool, writeable: bool)
    ensures FillFrom(m, s, eip, gas, stop, writeable, []) == Ok([])
  {
  }

  // ---------- running ----------

  /** How a call of cycle or execute ended. */
  ghost function Ended(vm: VM, r: Result<bool>): Outcome
    requires vm.Valid()
    reads vm, vm.regs, vm.flags, vm.memory
  {
    match r
    case Ok(stopped) => if stopped then Halted(vm.Snapshot()) else Continue(vm.Snapshot())
    case Err(e) => Failed(vm.Snapshot(), e)
  }

  /** One turn of the second loop of cycle; `r` is absent when the loop goes on. */
  method RunPipelineSlot(vm: VM, p: Slot, table: Table, hv: Hypervisor) returns (r: Option<Result<bool>>)
    requires vm.Valid()
    modifies vm, vm.regs, vm.memory, vm.flags
    ensures RunSlot(MachineOf(table, hv), p, old(vm.Snapshot()))
         == if r.None? then Continue(vm.Snapshot()) else Ended(vm, r.value)
    ensures r.Some? ==> r.value != Ok(false)
  {
    hide Exec, Wrap32;
    var negativeGas := vm.gasRemaining < p.gasCost;
    vm.gasRemaining := SatSub(vm.gasRemaining, p.gasCost);
    if negativeGas {
      return Some(Err(OutOfGas));
    }
    var result := OpcodeFunctions.Function(vm, p, hv);
    match result {
      case Err(InternalVMStop) => return Some(Ok(true));
      case Err(error) =>
        vm.errorEip := vm.eip;
        return Some(Err(error));
      case Ok(_) =>
        vm.eip := Wrap32(vm.eip as int + p.eipSize as int);
        return None;
    }
  }

  method RunCycle(vm: VM, table: Table, pipeline: array<Slot>, hv: Hypervisor) returns (r: Result<bool>)
    requires vm.Valid()
    modifies vm, vm.regs, vm.memory, vm.flags, pipeline
    ensures Ended(vm, r) == Cycle(MachineOf(table, hv), old(pipeline[..]), old(vm.Snapshot()))
    ensures r == Ok(false) ==>
              var filled := Fill(MachineOf(table, hv), old(vm.Snapshot()), old(pipeline[..]));
              filled.Ok? && pipeline[..] == filled.value
  {
    hide Fill, RunSlot;
    var _ :- FillPipeline(vm, table, pipeline, hv);
    ghost var m, s, slots := MachineOf(table, hv), vm.Snapshot(), pipeline[..];
    assert slots == slots[0..];
    for n := 0 to pipeline.Length
      invariant pipeline[..] == slots
      invariant RunSlots(m, slots[n..], vm.Snapshot()) == RunSlots(m, slots, s)
    {
      assert slots[n..][0] == pipeline[n] && slots[n..][1..] == slots[n + 1..];
      var stop := RunPipelineSlot(vm, pipeline[n], table, hv);
      if stop.Some? {
        return stop.value;
      }
    }
    return Ok(false);
  }

  /** execute: cycles until one does not go on. `bound` is a number of cycles
      after which that has happened. */
  method Execute(vm: VM, hv: Hypervisor, ghost bound: nat) returns (r: Result<bool>)
    requires vm.Valid()
    requires !Cycles(Qx86(hv), NewPipeline(PIPELINE_SIZE), vm.Snapshot(), bound).Continue?
    modifies vm, vm.regs, vm.memory, vm.flags
    ensures Ended(vm, r) == Cycles(Qx86(hv), NewPipeline(PIPELINE_SIZE), old(vm.Snapshot()), bound)
  {
    hide Cycle, Fill;
    var pipeline := new Slot[PIPELINE_SIZE](_ => DEFAULT_SLOT);
    assert pipeline[..] == NewPipeline(PIPELINE_SIZE);
    ghost var whole := Cycles(Qx86(hv), pipeline[..], vm.Snapshot(), bound);
    ghost var left := bound;
    while true
      invariant Cycles(Qx86(hv), pipeline[..], vm.Snapshot(), left) == whole
      invariant fresh(pipeline)
      decreases left
    {
      var stopped :- RunCycle(vm, OPCODES, pipeline, hv);
      if stopped {
        return Ok(true);
      }
      left := left - 1;
    }
  }

  /** execute when instructions cost gas and no one refunds any: it ends, and on a
      fresh run as executing one instruction at a time does. */
  method ExecuteToTheEnd(vm: VM, hv: Hypervisor) returns (r: Result<bool>)
    requires vm.Valid()
    requires RespectsFrozen(hv) && NeverRefunds(hv) && Bounded(vm.Snapshot())
    modifies vm, vm.regs, vm.memory, vm.flags
    ensures Ended(vm, r) == Cycles(Qx86(hv), NewPipeline(PIPELINE_SIZE), old(vm.Snapshot()), (old(vm.gasRemaining) + 1) * 65522)
    ensures !Ended(vm, r).Continue?
    ensures CyclesBegin(Qx86(hv), NewPipeline(PIPELINE_SIZE), old(vm.Snapshot()), (old(vm.gasRemaining) + 1) * 65522)
            <= (old(vm.gasRemaining) + 1) * 65522
    ensures FreshRun(hv, old(vm.Snapshot()), PIPELINE_SIZE) ==>
              Runs.Matches(Ended(vm, r), Steps(Qx86(hv), old(vm.Snapshot()), (old(vm.gasRemaining) + 1) * 65522))
  {
    hide FreshRun, Cycles, CyclesBegin, Steps, Bounded, RespectsFrozen, NeverRefunds, Runs.Matches;
    ghost var s := vm.Snapshot();
    OpcodeTableIsSane();
    CyclesEnd(OPCODES, hv, PIPELINE_SIZE, s);
    if FreshRun(hv, s, PIPELINE_SIZE) {
      EndsAsReference(hv, s, PIPELINE_SIZE);
    }
    r := Execute(vm, hv, (s.gas + 1) * 65522);
  }

  lemma EndsAsReference(hv: Hypervisor, s: State, n: nat)
    requires RespectsFrozen(hv) && NeverRefunds(hv) && FreshRun(hv, s, n) && Bounded(s) && n >= 1
    ensures Runs.Matches(Cycles(Qx86(hv), NewPipeline(n), s, (s.gas + 1) * 65522), Steps(Qx86(hv), s, (s.gas + 1) * 65522))
  {
    hide Refinement.Conforms, Refinement.SoundProgram, FreshRun, Cycles, Steps, Bounded, RespectsFrozen, NeverRefunds;
    OpcodeTableIsSane();
    FreshRunIsSound(hv, s, n);
    StepsEnd(OPCODES, hv, s);
    CyclesEnd(OPCODES, hv, n, s);
    var k := Runs.CyclesAreSteps(Qx86(hv), NewPipeline(n), s, (s.gas + 1) * 65522);
    Runs.StepsEndOnce(Qx86(hv), s, k, (s.gas + 1) * 65522);
  }
}

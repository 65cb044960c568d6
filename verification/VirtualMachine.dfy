// The virtual machine object: registers, flags, memory and gas, changed in place.

module VirtualMachine {
  import opened Words
  import opened Errors
  import opened Structs
  import opened Memory
  import opened FlagBits
  import opened VMState
  import Fetch

  class VM {
    const regs: array<u32>
    const flags: X86Flags
    const memory: MemorySystem
    var eip: u32
    var errorEip: u32
    var gasRemaining: u64
    var charger: Costs
    /** What the hypervisor remembers between interrupts. */
    var host: seq<int>

    predicate Valid() {
      regs.Length == 8
    }

    /** What instructions compute on, as a value. */
    function Core(): Cpu
      requires Valid()
      reads this`eip, this`host, regs, flags, memory
    {
      Cpu(regs[..], eip, flags.Value(), memory.blocks, host)
    }

    /** The whole machine as a value. */
    function Snapshot(): State
      requires Valid()
      reads this, regs, flags, memory
    {
      State(Core(), errorEip, gasRemaining, charger)
    }

    /** How a method ended, against what its specification makes of the state before. */
    ghost predicate Ends(e: Effect<Cpu, Cpu>, r: Result<()>)
      requires Valid()
      reads this`eip, this`host, regs, flags, memory
    {
      Core() == CpuLeft(e) && r == if e.Done? then Ok(()) else Err(e.error)
    }

    /** The same for what concerns gas and the hypervisor too. */
    ghost predicate Leaves(e: Effect<State, State>, r: Result<()>)
      requires Valid()
      reads this, regs, flags, memory
    {
      && Snapshot() == (if e.Done? then e.value else e.st)
      && r == if e.Done? then Ok(()) else Err(e.error)
    }

    constructor (costs: Costs)
      ensures Valid() && fresh(regs) && fresh(flags) && fresh(memory)
      ensures Snapshot() == State(Cpu([0, 0, 0, 0, 0, 0, 0, 0], 0, Deserialize(0), map[], []), 0, 0, costs)
    {
      regs := new u32[8](_ => 0);
      flags := new X86Flags();
      memory := new MemorySystem();
      eip, errorEip, gasRemaining, charger, host := 0, 0, 0, costs, [];
      new;
      assert regs[..] == [0, 0, 0, 0, 0, 0, 0, 0];
      assert Deserialize(0) == flags.Value() by {
        forall i: nat ensures !BitManip.GetBit(0, i) { ZeroHasNoBits(i); }
      }
    }

    // ---------- reading ----------

    function GetReg(reg: u3, size: ValueSize): SizedValue
      requires Valid()
      reads regs
    {
      VMState.GetReg(regs[..], reg, size)
    }

    function GetMem(address: u32, size: ValueSize): Result<SizedValue>
      reads memory
    {
      Memory.GetMem(memory.blocks, address, size)
    }

    function GetArg(arg: ArgLocation): Result<SizedValue>
      requires Valid()
      reads regs, memory
    {
      VMState.GetArg(regs[..], memory.blocks, arg)
    }

    function GetArgLea(arg: ArgLocation): Result<u32>
      requires Valid()
      reads regs
    {
      VMState.GetArgLea(regs[..], arg)
    }

    function CalculateModRMAddress(arg: ArgLocation): u32
      requires Valid() && (arg.ModRMAddress? || arg.SIBAddress?)
      reads regs
    {
      ModRMEffectiveAddress(regs[..], arg)
    }

    // ---------- writing ----------

    method SetReg(reg: u3, value: SizedValue)
      requires Valid()
      modifies regs
      ensures regs[..] == VMState.SetReg(old(regs[..]), reg, value)
    {
      match value {
        case NoValue =>
        case Qword(_) =>
        case Byte(v) =>
          if reg < 4 {
            regs[reg] := regs[reg] - regs[reg] % 0x100 + v;
          } else {
            var x := regs[reg - 4];
            regs[reg - 4] := x - x / 0x100 % 0x100 * 0x100 + v * 0x100;
          }
        case Word(v) => regs[reg] := regs[reg] - regs[reg] % 0x1_0000 + v;
        case Dword(v) => regs[reg] := v;
      }
    }

    method SetReg32(reg: u3, value: u32)
      requires Valid()
      modifies regs
      ensures Core() == WithReg(old(Core()), reg, value)
    {
      regs[reg] := value;
    }

    method SetMem(address: u32, value: SizedValue) returns (r: Result<()>)
      requires Valid()
      modifies memory
      ensures Ends(StoreAt(old(Core()), address, value), r)
    {
      hide Write;
      if address < WRITEABLE_MEMORY {
        return Err(WroteReadOnlyMemory(address));
      }
      match value {
        case NoValue => return Ok(());
        case Byte(v) => r := memory.SetBytes(address, [v]);
        case Word(v) => r := memory.SetBytes(address, Bytes16(v));
        case Dword(v) => r := memory.SetBytes(address, Bytes32(v));
        case Qword(v) => r := memory.SetBytes(address, Bytes64(v));
      }
    }

    method SetArg(arg: ArgLocation, v: SizedValue) returns (r: Result<()>)
      requires Valid()
      modifies regs, memory
      ensures Ends(VMState.SetArg(old(Core()), arg, v), r)
    {
      hide StoreAt;
      match arg {
        case NoArg => return Ok(());
        case Immediate(_) => return Err(WroteUnwriteableArgument);
        case Address(a, size) =>
          var z :- v.ConvertSizeZx(size);
          r := SetMem(a, z);
        case RegisterValue(reg, size) =>
          var z :- v.ConvertSizeZx(size);
          SetReg(reg, z);
          return Ok(());
        case RegisterAddress(reg, size) =>
          var z :- v.ConvertSizeZx(size);
          r := SetMem(regs[reg], z);
        case ModRMAddress(_, _, size) =>
          var sized := v.ConvertSizeTrunc(size);
          r := SetMem(CalculateModRMAddress(arg), sized);
        case SIBAddress(_, _, _, _, size) =>
          var sized := v.ConvertSizeTrunc(size);
          r := SetMem(CalculateModRMAddress(arg), sized);
      }
    }

    method PushStack(val: SizedValue, p: Fetch.Slot) returns (r: Result<()>)
      requires Valid()
      modifies regs, memory
      ensures Ends(Push(old(Core()), val, p.sizeOverride), r)
    {
      hide StoreAt;
      if p.sizeOverride {
        regs[ESP] := Wrap32(regs[ESP] as int - 2);
        assert Core() == WithReg(old(Core()), ESP, regs[ESP]);
        var w :- val.U16Zx();
        r := SetMem(regs[ESP], Word(w));
      } else {
        regs[ESP] := Wrap32(regs[ESP] as int - 4);
        assert Core() == WithReg(old(Core()), ESP, regs[ESP]);
        var d :- val.U32Zx();
        r := SetMem(regs[ESP], Dword(d));
      }
    }

    /** pop16 and pop32 */
    method PopStack(size: ValueSize) returns (r: Result<SizedValue>)
      requires Valid()
      modifies regs
      ensures var e := Pop(old(Core()), size);
              && Core() == (if e.Done? then e.value.0 else e.st)
              && r == (if e.Done? then Ok(e.value.1) else Err(e.error))
    {
      var esp := regs[ESP];
      regs[ESP] := Wrap32(esp as int + if size == SizeWord then 2 else 4);
      assert Core() == WithReg(old(Core()), ESP, regs[ESP]);
      return GetMem(esp, size);
    }

    /** Puts the machine into a given state (what a hypervisor call leaves behind). */
    method Restore(s: State)
      requires Valid()
      modifies this, regs, flags, memory
      ensures Snapshot() == s
    {
      forall i | 0 <= i < 8 {
        regs[i] := s.cpu.regs[i];
      }
      assert regs[..] == s.cpu.regs;
      flags.Assign(s.cpu.flags);
      memory.blocks := s.cpu.mem;
      eip, host := s.cpu.eip, s.cpu.host;
      errorEip, gasRemaining, charger := s.errorEip, s.gas, s.costs;
    }
  }
}

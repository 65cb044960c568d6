// The machine state as a value, and operand access on it.

module VMState {
  import opened Words
  import opened Errors
  import opened Structs
  import opened Memory
  import FlagBits

  /** [u32; 8] in the order EAX, ECX, EDX, EBX, ESP, EBP, ESI, EDI */
  type Regs = r: seq<u32> | |r| == 8 witness [0, 0, 0, 0, 0, 0, 0, 0]

  const EAX: u3 := 0
  const ECX: u3 := 1
  const EDX: u3 := 2
  const EBX: u3 := 3
  const ESP: u3 := 4
  const EBP: u3 := 5
  const ESI: u3 := 6
  const EDI: u3 := 7
  const AL: u3 := 0
  const CL: u3 := 1
  const AH: u3 := 4

  datatype GasTier =
    | TierNone | VeryLow | Low | Moderate | High
    | ConditionalBranch | MemoryAccess | WriteableMemoryExec | ModRMSurcharge

  type Costs = c: seq<u64> | |c| == 9 witness [0, 0, 0, 0, 0, 0, 0, 0, 0]

  function Cost(costs: Costs, tier: GasTier): u64 {
    match tier
    case TierNone => costs[0]
    case VeryLow => costs[1]
    case Low => costs[2]
    case Moderate => costs[3]
    case High => costs[4]
    case ConditionalBranch => costs[5]
    case MemoryAccess => costs[6]
    case WriteableMemoryExec => costs[7]
    case ModRMSurcharge => costs[8]
  }

  /** The part of the VM that instructions compute on. `host` stands for what
      the hypervisor object remembers between interrupts. */
  datatype Cpu = Cpu(regs: Regs, eip: u32, flags: FlagBits.Flags, mem: Mem, host: seq<int>)

  /** Everything the VM holds. */
  datatype State = State(cpu: Cpu, errorEip: u32, gas: u64, costs: Costs) {
    function Advance(size: nat): State {
      this.(cpu := cpu.(eip := Wrap32(cpu.eip + size)))
    }
  }

  /** The outcome of running part of an instruction on a state of type S: a
      value, or an error together with the state it leaves behind. */
  datatype Effect<+T, +S> = Done(value: T) | Raised(st: S, error: VMError) {
    predicate IsFailure() {
      Raised?
    }

    function PropagateFailure<U>(): Effect<U, S>
      requires Raised?
    {
      Raised(st, error)
    }

    function Extract(): T
      requires Done?
    {
      value
    }
  }

  /** A read that leaves the state alone. */
  function At<T, S>(s: S, r: Result<T>): Effect<T, S> {
    match r
    case Ok(v) => Done(v)
    case Err(e) => Raised(s, e)
  }

  function GetReg(regs: Regs, r: u3, size: ValueSize): SizedValue {
    match size
    case SizeNone => NoValue
    case SizeByte => if r < 4 then Byte(regs[r] % 0x100) else Byte(regs[r - 4] / 0x100 % 0x100)
    case SizeWord => Word(regs[r] % 0x1_0000)
    case SizeDword => Dword(regs[r])
    case SizeQword => NoValue
  }

  function SetReg(regs: Regs, r: u3, v: SizedValue): Regs {
    match v
    case NoValue => regs
    case Qword(_) => regs
    case Byte(b) =>
      if r < 4 then regs[r := regs[r] - regs[r] % 0x100 + b]
      else
        var x := regs[r - 4];
        regs[r - 4 := x - x / 0x100 % 0x100 * 0x100 + b * 0x100]
    case Word(w) => regs[r := regs[r] - regs[r] % 0x1_0000 + w]
    case Dword(d) => regs[r := d]
  }

  /** A register, or nothing. */
  function RegOr0(regs: Regs, r: Option<u3>): u32 {
    if r.Some? then regs[r.value] else 0
  }

  /** calculate_modrm_address, for the two kinds of location it is called with. */
  function ModRMEffectiveAddress(regs: Regs, loc: ArgLocation): u32
    requires loc.ModRMAddress? || loc.SIBAddress?
  {
    match loc
    case ModRMAddress(offset, reg, _) =>
      Wrap32((if offset.Some? then offset.value else 0) + RegOr0(regs, reg))
    case SIBAddress(disp, base, scale, index, _) =>
      Wrap32(Wrap32(RegOr0(regs, base) + Wrap32(RegOr0(regs, index) * scale)) + disp)
  }

  function GetArg(regs: Regs, m: Mem, loc: ArgLocation): (r: Result<SizedValue>)
    ensures r.Err? ==> r.error.Ordinary()
  {
    match loc
    case NoArg => Ok(NoValue)
    case Immediate(v) => Ok(v)
    case Address(a, size) => GetMem(m, a, size)
    case RegisterValue(r, size) => Ok(GetReg(regs, r, size))
    case RegisterAddress(r, size) => GetMem(m, regs[r], size)
    case ModRMAddress(_, _, size) => GetMem(m, ModRMEffectiveAddress(regs, loc), size)
    case SIBAddress(_, _, _, _, size) => GetMem(m, ModRMEffectiveAddress(regs, loc), size)
  }

  function GetArgLea(regs: Regs, loc: ArgLocation): Result<u32> {
    match loc
    case Address(a, _) => Ok(a)
    case RegisterAddress(r, _) => Ok(regs[r])
    case ModRMAddress(_, _, _) => Ok(ModRMEffectiveAddress(regs, loc))
    case SIBAddress(_, _, _, _, _) => Ok(ModRMEffectiveAddress(regs, loc))
    case _ => Err(InvalidOpcodeEncoding)
  }

  function CpuLeft(e: Effect<Cpu, Cpu>): Cpu {
    if e.Done? then e.value else e.st
  }

  /** Leaves eip and everything read-only alone, and fails in no special way. */
  ghost predicate Quiet(c: Cpu, e: Effect<Cpu, Cpu>) {
    && Preserves(c.mem, CpuLeft(e).mem)
    && CpuLeft(e).eip == c.eip
    && (e.Raised? ==> e.error.Ordinary())
  }

  lemma QuietThen(c: Cpu, d: Cpu, e: Effect<Cpu, Cpu>)
    requires Quiet(c, Done(d)) && Quiet(d, e)
    ensures Quiet(c, e)
  {
  }

  function StoreAt(c: Cpu, a: u32, v: SizedValue): (r: Effect<Cpu, Cpu>)
    ensures Quiet(c, r)
  {
    var m :- At(c, SetMem(c.mem, a, v));
    Done(c.(mem := m))
  }

  function SetArg(c: Cpu, loc: ArgLocation, v: SizedValue): (r: Effect<Cpu, Cpu>)
    ensures Quiet(c, r)
  {
    match loc
    case NoArg => Done(c)
    case Immediate(_) => Raised(c, WroteUnwriteableArgument)
    case Address(a, size) =>
      var z :- At(c, v.ConvertSizeZx(size));
      StoreAt(c, a, z)
    case RegisterValue(r, size) =>
      var z :- At(c, v.ConvertSizeZx(size));
      Done(c.(regs := SetReg(c.regs, r, z)))
    case RegisterAddress(r, size) =>
      var z :- At(c, v.ConvertSizeZx(size));
      StoreAt(c, c.regs[r], z)
    case ModRMAddress(_, _, size) =>
      StoreAt(c, ModRMEffectiveAddress(c.regs, loc), v.ConvertSizeTrunc(size))
    case SIBAddress(_, _, _, _, size) =>
      StoreAt(c, ModRMEffectiveAddress(c.regs, loc), v.ConvertSizeTrunc(size))
  }

  function WithReg(c: Cpu, r: u3, v: u32): Cpu {
    c.(regs := c.regs[r := v])
  }

  /** push_stack: ESP moves before the value is converted and stored. */
  function Push(c: Cpu, v: SizedValue, sizeOverride: bool): (r: Effect<Cpu, Cpu>)
    ensures Quiet(c, r)
  {
    if sizeOverride then
      var t := WithReg(c, ESP, Wrap32(c.regs[ESP] as int - 2));
      var w :- At(t, v.U16Zx());
      StoreAt(t, t.regs[ESP], Word(w))
    else
      var t := WithReg(c, ESP, Wrap32(c.regs[ESP] as int - 4));
      var d :- At(t, v.U32Zx());
      StoreAt(t, t.regs[ESP], Dword(d))
  }

  /** pop16 and pop32: ESP moves even when the read fails. */
  function Pop(c: Cpu, size: ValueSize): (r: Effect<(Cpu, SizedValue), Cpu>)
    ensures var t := if r.Done? then r.value.0 else r.st; t.mem == c.mem && t.eip == c.eip
    ensures r.Raised? ==> r.error.Ordinary()
  {
    var t := WithReg(c, ESP, Wrap32(c.regs[ESP] as int + if size == SizeWord then 2 else 4));
    var v :- At(t, GetMem(c.mem, c.regs[ESP], size));
    Done((t, v))
  }
}

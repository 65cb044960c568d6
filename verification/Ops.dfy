// What the opcode functions do to the machine.

module Ops {
  import opened Words
  import opened Errors
  import opened Structs
  import opened Memory
  import FlagBits
  import opened VMState
  import opened Opcodes
  import opened Fetch
  import opened Arithmetic

  type CpuEffect<T> = Effect<T, Cpu>

  // ---------- operands ----------

  function Arg(c: Cpu, p: Slot, n: nat): CpuEffect<SizedValue>
    requires n < 3
  {
    At(c, GetArg(c.regs, c.mem, p.args[n].location))
  }

  /** u8_exact, u16_exact or u32_exact */
  function Exact(v: SizedValue, size: ValueSize): Result<u32> {
    match size
    case SizeByte => var b :- v.U8Exact(); Ok(b)
    case SizeWord => var w :- v.U16Exact(); Ok(w)
    case _ => v.U32Exact()
  }

  /** u8_exact, u16_sx or u32_sx: how the second operand of arithmetic is read. */
  function Extended(v: SizedValue, size: ValueSize): Result<u32> {
    match size
    case SizeByte => var b :- v.U8Exact(); Ok(b)
    case SizeWord => var w :- v.U16Sx(); Ok(w)
    case _ => v.U32Sx()
  }

  function Sized(v: int, size: ValueSize): SizedValue
    requires 0 <= v < Modulus(size)
  {
    match size
    case SizeByte => Byte(v)
    case SizeWord => Word(v)
    case _ => Dword(v)
  }

  // ---------- moves and the stack ----------

  function MovOp(c: Cpu, p: Slot): CpuEffect<Cpu> {
    var v :- Arg(c, p, 1);
    SetArg(c, p.args[0].location, v)
  }

  function LeaOp(c: Cpu, p: Slot): CpuEffect<Cpu> {
    var a :- At(c, GetArgLea(c.regs, p.args[1].location));
    SetArg(c, p.args[0].location, if p.sizeOverride then Word(a % 0x1_0000) else Dword(a))
  }

  function PushOp(c: Cpu, p: Slot): CpuEffect<Cpu> {
    var v :- Arg(c, p, 0);
    Push(c, v, p.sizeOverride)
  }

  function PopOp(c: Cpu, p: Slot): CpuEffect<Cpu> {
    var (t, v) :- Pop(c, if p.sizeOverride then SizeWord else SizeDword);
    SetArg(t, p.args[0].location, v)
  }

  function PushReg(c: Cpu, r: u3, sizeOverride: bool): CpuEffect<Cpu> {
    Push(c, GetReg(c.regs, r, if sizeOverride then SizeWord else SizeDword), sizeOverride)
  }

  function PushAllOp(c: Cpu, sizeOverride: bool): CpuEffect<Cpu> {
    var esp := GetReg(c.regs, ESP, if sizeOverride then SizeWord else SizeDword);
    var c1 :- PushReg(c, EAX, sizeOverride);
    var c2 :- PushReg(c1, ECX, sizeOverride);
    var c3 :- PushReg(c2, EDX, sizeOverride);
    var c4 :- PushReg(c3, EBX, sizeOverride);
    var c5 :- Push(c4, esp, sizeOverride);
    var c6 :- PushReg(c5, EBP, sizeOverride);
    var c7 :- PushReg(c6, ESI, sizeOverride);
    PushReg(c7, EDI, sizeOverride)
  }

  function PopAllOp(c: Cpu, sizeOverride: bool): CpuEffect<Cpu> {
    var size := if sizeOverride then SizeWord else SizeDword;
    var (c1, edi) :- Pop(c, size);
    var (c2, esi) :- Pop(c1, size);
    var (c3, ebp) :- Pop(c2, size);
    var (c4, _) :- Pop(c3, size);
    var (c5, ebx) :- Pop(c4, size);
    var (c6, edx) :- Pop(c5, size);
    var (c7, ecx) :- Pop(c6, size);
    var (c8, eax) :- Pop(c7, size);
    Done(c8.(regs := SetPopped(c8.regs, edi, esi, ebp, ebx, edx, ecx, eax)))
  }

  function SetPopped(r: Regs, edi: SizedValue, esi: SizedValue, ebp: SizedValue, ebx: SizedValue,
                     edx: SizedValue, ecx: SizedValue, eax: SizedValue): Regs
  {
    var r := SetReg(r, EDI, edi);
    var r := SetReg(r, ESI, esi);
    var r := SetReg(r, EBP, ebp);
    var r := SetReg(r, EBX, ebx);
    var r := SetReg(r, EDX, edx);
    var r := SetReg(r, ECX, ecx);
    SetReg(r, EAX, eax)
  }

  function PushFlagsOp(c: Cpu, p: Slot): CpuEffect<Cpu> {
    Push(c, Dword(FlagBits.Serialize(c.flags) % 0x1_0000_0000), p.sizeOverride)
  }

  function PopFlagsOp(c: Cpu): CpuEffect<Cpu> {
    var (t, v) :- Pop(c, SizeDword);
    var w :- At(t, v.U32Exact());
    Done(t.(flags := FlagBits.Deserialize(w)))
  }

  // ---------- arithmetic ----------

  function AddOp(c: Cpu, p: Slot, size: ValueSize): CpuEffect<Cpu> {
    var a :- Arg(c, p, 0);
    var base :- At(c, Exact(a, size));
    var b :- Arg(c, p, 1);
    var adder :- At(c, Extended(b, size));
    var (result, flags) := AddWithFlags(c.flags, base, adder, size);
    SetArg(c.(flags := flags), p.args[0].location, Sized(result, size))
  }

  function AdcOp(c: Cpu, p: Slot, size: ValueSize): CpuEffect<Cpu> {
    var a :- Arg(c, p, 0);
    var prelim :- At(c, Exact(a, size));
    var t :- SetArg(c, p.args[0].location, Sized(CarryIn(c.flags, prelim, size), size));
    AddOp(t, p, size)
  }

  function SubOp(c: Cpu, p: Slot, size: ValueSize): CpuEffect<Cpu> {
    var a :- Arg(c, p, 0);
    var base :- At(c, Exact(a, size));
    var b :- Arg(c, p, 1);
    var subt :- At(c, Extended(b, size));
    var (result, flags) := SubWithFlags(c.flags, base, subt, size);
    SetArg(c.(flags := flags), p.args[0].location, Sized(result, size))
  }

  function CmpOp(c: Cpu, p: Slot, size: ValueSize): CpuEffect<Cpu> {
    var a :- Arg(c, p, 0);
    var base :- At(c, Exact(a, size));
    var b :- Arg(c, p, 1);
    var cmpt :- At(c, Extended(b, size));
    Done(c.(flags := SubWithFlags(c.flags, base, cmpt, size).1))
  }

  function AluOp(c: Cpu, p: Slot, kind: AluKind, size: ValueSize): CpuEffect<Cpu> {
    match kind
    case Add => AddOp(c, p, size)
    case Adc => AdcOp(c, p, size)
    case Sub => SubOp(c, p, size)
    case Cmp => CmpOp(c, p, size)
  }

  function DaaOp(c: Cpu): CpuEffect<Cpu> {
    var (al, flags) := DaaWithFlags(c.flags, c.regs[EAX] % 0x100);
    Done(c.(regs := SetReg(c.regs, AL, Byte(al)), flags := flags))
  }

  function RotateOp(c: Cpu, p: Slot, left: bool, size: ValueSize): CpuEffect<Cpu> {
    var a :- Arg(c, p, 0);
    var destination :- At(c, Exact(a, size));
    var b :- Arg(c, p, 1);
    var n :- At(c, Extended(b, size));
    var count := RotateCount(n, size);
    if count == 0 then Done(c)
    else
      var (result, flags) := if left then RclWithFlags(c.flags, destination, count, size)
                             else RcrWithFlags(c.flags, destination, count, size);
      SetArg(c.(flags := flags), p.args[0].location, Sized(result, size))
  }

  /** The operand of mul and div: u16_zx for bytes, u32_zx otherwise. */
  function Factor(v: SizedValue, size: ValueSize): Result<u32> {
    if size == SizeByte then
      var w :- v.U16Zx();
      Ok(w)
    else v.U32Zx()
  }

  /** The double-width register pair: AX, DX:AX or EDX:EAX. */
  function Pair(regs: Regs, size: ValueSize): u64 {
    match size
    case SizeByte => regs[EAX] % 0x1_0000
    case SizeWord => regs[EDX] % 0x1_0000 * 0x1_0000 + regs[EAX] % 0x1_0000
    case _ => regs[EDX] as int * 0x1_0000_0000 + regs[EAX] as int
  }

  /** Writes the low and the high half of the register pair. */
  function SetPair(regs: Regs, low: int, high: int, size: ValueSize): Regs
    requires 0 <= low < Modulus(size) && 0 <= high < Modulus(size)
  {
    if size == SizeByte then SetReg(SetReg(regs, AL, Byte(low)), AH, Byte(high))
    else SetReg(SetReg(regs, EAX, Sized(low, size)), EDX, Sized(high, size))
  }

  function LowHalf(x: nat, m: nat): (h: nat)
    requires m > 0
    ensures h < m
  {
    x % m
  }

  function HighHalf(x: nat, m: nat): (h: nat)
    requires m > 0
    ensures h < m
  {
    x / m % m
  }

  function MulOp(c: Cpu, p: Slot, size: ValueSize): CpuEffect<Cpu> {
    var v :- Arg(c, p, 0);
    var second :- At(c, Factor(v, size));
    var first := GetReg(c.regs, EAX, size).Number();
    var m := Modulus(size);
    var product: nat := first * second;
    var high := HighHalf(product, m);
    Done(c.(regs := SetPair(c.regs, LowHalf(product, m), high, size),
            flags := c.flags.(carry := high > 0, overflow := high > 0)))
  }

  function DivOp(c: Cpu, p: Slot, size: ValueSize): CpuEffect<Cpu> {
    var v :- Arg(c, p, 0);
    var second :- At(c, Factor(v, size));
    var first := Pair(c.regs, size);
    if second == 0 || first / second >= Modulus(size) then Raised(c, DivideByZero)
    else Done(c.(regs := SetPair(c.regs, first / second, first % second % Modulus(size), size)))
  }

  // ---------- jumps ----------

  function JumpRelativeOp(c: Cpu, p: Slot): CpuEffect<Cpu> {
    var v :- Arg(c, p, 0);
    var rel :- At(c, v.U32Sx());
    var eip := JumpBase(c.eip, p.eipSize, rel);
    Done(c.(eip := if p.sizeOverride then eip % 0x1_0000 else eip))
  }

  function JumpAbsoluteOp(c: Cpu, p: Slot): CpuEffect<Cpu> {
    var v :- Arg(c, p, 0);
    var target :- At(c, v.U32Zx());
    var eip := Wrap32(target - p.eipSize as int);
    Done(c.(eip := if p.sizeOverride then eip % 0x1_0000 else eip))
  }

  /** The part call_rel and call_abs share: the return address goes on the
      stack, and the branch operand into the second argument, which is absent. */
  function PushReturn(c: Cpu, p: Slot): CpuEffect<Cpu> {
    var v :- Arg(c, p, 0);
    var branchTo :- At(c, v.U32Zx());
    var t :- Push(c, Dword(Wrap32(c.eip + p.eipSize)), p.sizeOverride);
    SetArg(t, p.args[1].location, Dword(branchTo))
  }

  function CallRelativeOp(c: Cpu, p: Slot): CpuEffect<Cpu> {
    var t :- PushReturn(c, p);
    JumpRelativeOp(t, p)
  }

  function CallAbsoluteOp(c: Cpu, p: Slot): CpuEffect<Cpu> {
    var t :- PushReturn(c, p);
    JumpAbsoluteOp(t, p)
  }

  function RetOp(c: Cpu, p: Slot): CpuEffect<Cpu> {
    var v :- Arg(c, p, 0);
    var stackClear :- At(c, v.U16Zx());
    var (t, target) :- Pop(c, if p.sizeOverride then SizeWord else SizeDword);
    var address :- At(t, target.U32Zx());
    var eip := Wrap32(address - p.eipSize as int);
    Done(t.(eip := if p.sizeOverride then eip % 0x1_0000 else eip,
            regs := t.regs[ESP := Wrap32(t.regs[ESP] + stackClear)]))
  }

  function JumpIfOp(c: Cpu, p: Slot): CpuEffect<Cpu> {
    if CcMatches(p.opcode, c.flags) then JumpRelativeOp(c, p) else Done(c)
  }

  function JumpIfEcxZeroOp(c: Cpu, p: Slot): CpuEffect<Cpu> {
    if c.regs[ECX] == 0 then JumpRelativeOp(c, p) else Done(c)
  }

  // ---------- strings ----------

  function SizeInBytes(size: ValueSize): nat {
    if size == SizeByte then 1 else if size == SizeWord then 2 else 4
  }

  /** ESI or EDI after one element, by the direction flag. */
  function Moved(c: Cpu, r: u3, size: ValueSize): u32 {
    Wrap32(if c.flags.direction then c.regs[r] as int - SizeInBytes(size) else c.regs[r] + SizeInBytes(size))
  }

  function MovsOp(c: Cpu, size: ValueSize): CpuEffect<Cpu> {
    var v :- At(c, GetMem(c.mem, c.regs[ESI], size));
    var t :- StoreAt(c, c.regs[EDI], v);
    Done(t.(regs := t.regs[EDI := Moved(c, EDI, size)][ESI := Moved(c, ESI, size)]))
  }

  function CmpsOp(c: Cpu, size: ValueSize): CpuEffect<Cpu> {
    var d :- At(c, GetMem(c.mem, c.regs[ESI], size));
    var s :- At(c, GetMem(c.mem, c.regs[EDI], size));
    var flags := SubWithFlags(c.flags, d.Number() % 0x1_0000_0000, s.Number() % 0x1_0000_0000, size).1;
    Done(c.(flags := flags, regs := c.regs[EDI := Moved(c, EDI, size)][ESI := Moved(c, ESI, size)]))
  }

  function StosOp(c: Cpu, size: ValueSize): CpuEffect<Cpu> {
    var t :- StoreAt(c, c.regs[EDI], GetReg(c.regs, EAX, size));
    Done(t.(regs := t.regs[EDI := Moved(c, EDI, size)]))
  }

  function LodsOp(c: Cpu, size: ValueSize): CpuEffect<Cpu> {
    var v :- At(c, GetMem(c.mem, c.regs[ESI], size));
    Done(c.(regs := SetReg(c.regs, EAX, v)[ESI := Moved(c, ESI, size)]))
  }

  function ScasOp(c: Cpu, size: ValueSize): CpuEffect<Cpu> {
    var v :- At(c, GetMem(c.mem, c.regs[EDI], size));
    var acc := GetReg(c.regs, EAX, size).Number() % 0x1_0000_0000;
    var flags := SubWithFlags(c.flags, acc, v.Number() % 0x1_0000_0000, size).1;
    Done(c.(flags := flags, regs := c.regs[EDI := Moved(c, EDI, size)]))
  }

  predicate IsStringOp(op: Op) {
    op.Movs? || op.Cmps? || op.Stos? || op.Lods? || op.Scas?
  }

  function StringOp(c: Cpu, op: Op, sizeOverride: bool): (r: CpuEffect<Cpu>)
    requires IsStringOp(op)
    ensures r.Done? ==> r.value.regs[ECX] == c.regs[ECX] && r.value.eip == c.eip
  {
    var size := op.width.Size(sizeOverride);
    match op
    case Movs(_) => MovsOp(c, size)
    case Cmps(_) => CmpsOp(c, size)
    case Stos(_) => StosOp(c, size)
    case Lods(_) => LodsOp(c, size)
    case Scas(_) => ScasOp(c, size)
  }

  // ---------- dispatch ----------

  /** Everything that works on the cpu alone. */
  predicate OnCpu(op: Op) {
    !op.Hlt? && !op.Interrupt? && !op.Repe? && !op.Repne?
  }

  function CpuOp(c: Cpu, op: Op, p: Slot): CpuEffect<Cpu>
    requires OnCpu(op)
  {
    match op
    case Nop => Done(c)
    case Undefined =>
      var b :- At(c, Read(c.mem, c.eip, 1));
      Raised(c, InvalidOpcode(b[0]))
    case Mov => MovOp(c, p)
    case Lea => LeaOp(c, p)
    case PushArg => PushOp(c, p)
    case PopArg => PopOp(c, p)
    case PushAll => PushAllOp(c, p.sizeOverride)
    case PopAll => PopAllOp(c, p.sizeOverride)
    case PushFlags => PushFlagsOp(c, p)
    case PopFlags => PopFlagsOp(c)
    case Alu(kind, w) => AluOp(c, p, kind, w.Size(p.sizeOverride))
    case Daa => DaaOp(c)
    case Rcl(w) => RotateOp(c, p, true, w.Size(p.sizeOverride))
    case Rcr(w) => RotateOp(c, p, false, w.Size(p.sizeOverride))
    case Mul(w) => MulOp(c, p, w.Size(p.sizeOverride))
    case Div(w) => DivOp(c, p, w.Size(p.sizeOverride))
    case JumpRelative => JumpRelativeOp(c, p)
    case JumpAbsolute => JumpAbsoluteOp(c, p)
    case JumpIf => JumpIfOp(c, p)
    case JumpIfEcxZero => JumpIfEcxZeroOp(c, p)
    case CallRelative => CallRelativeOp(c, p)
    case CallAbsolute => CallAbsoluteOp(c, p)
    case Ret => RetOp(c, p)
    case SetDirection => Done(c.(flags := c.flags.(direction := true)))
    case ClearDirection => Done(c.(flags := c.flags.(direction := false)))
    case Movs(_) => StringOp(c, op, p.sizeOverride)
    case Cmps(_) => StringOp(c, op, p.sizeOverride)
    case Stos(_) => StringOp(c, op, p.sizeOverride)
    case Lods(_) => StringOp(c, op, p.sizeOverride)
    case Scas(_) => StringOp(c, op, p.sizeOverride)
  }

  /** The outside world: what an interrupt does to the VM. */
  type Hypervisor = (State, u8) -> Effect<State, State>

  /** An effect on the cpu as an effect on the whole machine. */
  function Lift(s: State, e: CpuEffect<Cpu>): Effect<State, State> {
    match e
    case Done(c) => Done(s.(cpu := c))
    case Raised(c, error) => Raised(s.(cpu := c), error)
  }

  /** Any opcode function but the rep loops. */
  function ExecOnce(hv: Hypervisor, op: Op, p: Slot, s: State): Effect<State, State>
    requires !op.Repe? && !op.Repne?
  {
    if op.Hlt? then Raised(s, InternalVMStop)
    else if op.Interrupt? then
      var v :- At(s, GetArg(s.cpu.regs, s.cpu.mem, p.args[0].location));
      var num :- At(s, v.U8Exact());
      hv(s, num)
    else Lift(s, CpuOp(s.cpu, op, p))
  }

  // ---------- rep prefixes ----------

  predicate RepNoFlagOpcode(opcode: u8) {
    opcode in {0xA4, 0xA5, 0xAC, 0xAD, 0xAA, 0xAB}
  }

  predicate RepFlagOpcode(opcode: u8) {
    opcode in {0xA6, 0xA7, 0xAE, 0xAF}
  }

  predicate StringOpcode(opcode: u8) {
    RepNoFlagOpcode(opcode) || RepFlagOpcode(opcode)
  }

  /** read_regw on ECX */
  function RepCount(c: Cpu, sizeOverride: bool): u32 {
    if sizeOverride then c.regs[ECX] % 0x1_0000 else c.regs[ECX]
  }

  /** decrement_regw on ECX */
  function Decremented(c: Cpu, sizeOverride: bool): Cpu {
    var ecx := c.regs[ECX];
    if sizeOverride then
      WithReg(c, ECX, ecx - ecx % 0x1_0000 + (ecx % 0x1_0000 as int - 1) % 0x1_0000)
    else
      WithReg(c, ECX, Wrap32(ecx as int - 1))
  }

  function RepFunction(p: Slot): (op: Op)
    ensures !op.Repe? && !op.Repne?
    ensures StringOpcode(p.opcode) ==> IsStringOp(op)
    ensures RepFlagOpcode(p.opcode) ==> op.Scas? || op.Cmps?
  {
    Lookup(p.opcode).opcodes[0].op
  }

  function RepGas(costs: Costs, p: Slot): u64 {
    Cost(costs, Lookup(p.opcode).opcodes[0].gas)
  }

  /** One turn of a rep loop: the string function, ECX, the gas. */
  function RepTurn(hv: Hypervisor, p: Slot, s: State, gasCost: u64): Effect<State, State> {
    var t :- ExecOnce(hv, RepFunction(p), p, s);
    Done(t.(cpu := Decremented(t.cpu, p.sizeOverride), gas := SatSub(t.gas, gasCost)))
  }

  lemma StringTurn(hv: Hypervisor, op: Op, p: Slot, s: State)
    requires IsStringOp(op)
    ensures ExecOnce(hv, op, p, s) == Lift(s, StringOp(s.cpu, op, p.sizeOverride))
  {
    hide StringOp;
  }

  lemma RepTurnCounts(hv: Hypervisor, p: Slot, s: State, gasCost: u64)
    requires StringOpcode(p.opcode) && RepCount(s.cpu, p.sizeOverride) > 0
    ensures var r := RepTurn(hv, p, s, gasCost);
            r.Done? ==> RepCount(r.value.cpu, p.sizeOverride) == RepCount(s.cpu, p.sizeOverride) - 1
  {
    hide RepFunction, StringOp, ExecOnce, IsStringOp, StringOpcode;
    StringTurn(hv, RepFunction(p), p, s);
  }

  /** The loop of repe (`until` is false) and of repne (`until` is true): it goes
      on after a comparing opcode while the zero flag differs from `until`. */
  function RepLoop(hv: Hypervisor, p: Slot, s: State, gasCost: u64, until: bool): Effect<State, State>
    decreases RepCount(s.cpu, p.sizeOverride)
  {
    if RepCount(s.cpu, p.sizeOverride) == 0 then Done(s)
    else if s.gas == 0 then Raised(s, OutOfGas)
    else
      var t :- RepTurn(hv, p, s, gasCost);
      if !StringOpcode(p.opcode) then Raised(t, InvalidOpcodeEncoding)
      else if RepFlagOpcode(p.opcode) && t.cpu.flags.zero == until then Done(t)
      else
        RepTurnCounts(hv, p, s, gasCost);
        RepLoop(hv, p, t, gasCost, until)
  }

  function Exec(hv: Hypervisor, p: Slot, s: State): Effect<State, State> {
    if p.op.Repe? then RepLoop(hv, p, s, RepGas(s.costs, p), false)
    else if p.op.Repne? then
      if RepFlagOpcode(p.opcode) then RepLoop(hv, p, s, RepGas(s.costs, p), true)
      else Raised(s, InvalidOpcodeEncoding)
    else ExecOnce(hv, p.op, p, s)
  }
}

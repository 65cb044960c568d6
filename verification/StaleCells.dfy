// Where a longer pipeline differs although code in writable memory costs nothing
// extra: an instruction that was decoded before it was overwritten, and a rep
// before int that finds the operand of what its cell held.

module StaleCells {
  import opened Words
  import opened Errors
  import opened Structs
  import opened Memory
  import opened VMState
  import opened Opcodes
  import opened Fetch
  import opened Pipeline
  import opened Refinement
  import opened Runs
  import opened Ops
  import StringResults
  import X86
  import opened Programs
  import opened Crossing
  import opened SelfModifying

  /** `jmp` from read-only memory to `stosb`, `nop`, `hlt` at the start of a
      writable block, where the stosb is about to turn the nop into a hlt. */
  predicate OverwritesNext(s: State) {
    && JumpsOut(s)
    && BASE in s.cpu.mem && 18 <= |s.cpu.mem[BASE]|
    && s.cpu.mem[BASE][0] == 0xAA && s.cpu.mem[BASE][1] == 0x90 && s.cpu.mem[BASE][2] == 0xF4
    && s.cpu.regs[EDI] == BASE + 1 && s.cpu.regs[EAX] % 0x100 == 0xF4 && !s.cpu.flags.direction
  }

  /** Code in writable memory costs nothing extra, and there is gas for the four
      instructions. */
  predicate CanPay(s: State) {
    Surcharge(s) == 0 && s.gas > 2 * Cost(s.costs, Low) + 2 * Cost(s.costs, TierNone)
  }

  // ---------- decoding ----------

  lemma StosRow()
    ensures Lookup(0xAA) == Whole(Define(Stos(Narrow), NOTHING, NOTHING, Low, Plain))
  {
  }

  lemma StosBytes(code: seq<u8>) returns (f: Fields)
    requires |code| == 16 && code[0] == 0xAA
    ensures ReadFields(OPCODES, NO_PREFIXES, 0, code, NO_ARGS) == Ok(f)
    ensures f.o == Define(Stos(Narrow), NOTHING, NOTHING, Low, Plain) && !f.hasModRM
    ensures !f.args[0].isMemory && !f.args[1].isMemory && !f.args[2].isMemory
    ensures f.size == 1 && !f.sizeOverride
  {
    StosRow();
    hide Lookup;
    f := ReadFields(OPCODES, NO_PREFIXES, 0, code, NO_ARGS).value;
  }

  lemma NopRow()
    ensures Lookup(0x90) == Whole(Define(Nop, NOTHING, NOTHING, TierNone, Plain))
  {
  }

  lemma NopBytes(code: seq<u8>) returns (f: Fields)
    requires |code| == 16 && code[0] == 0x90
    ensures ReadFields(OPCODES, NO_PREFIXES, 0, code, NO_ARGS) == Ok(f)
    ensures f.o == Define(Nop, NOTHING, NOTHING, TierNone, Plain) && !f.hasModRM
    ensures !f.args[0].isMemory && !f.args[1].isMemory && !f.args[2].isMemory
    ensures f.size == 1 && !f.sizeOverride
  {
    NopRow();
    hide Lookup;
    f := ReadFields(OPCODES, NO_PREFIXES, 0, code, NO_ARGS).value;
  }

  /** What decoding gives for a one-byte instruction without operands. */
  predicate IsSimple(d: Result<Decoded>, op: Op, cost: u64, next: u32, stop: bool) {
    && d.Ok? && d.value.slot.op == op && d.value.slot.gasCost == cost
    && !d.value.slot.sizeOverride && d.value.slot.eipSize == 1
    && d.value.next == next && d.value.stop == stop
  }

  lemma StosDecodes(s: State, w: bool)
    requires BASE in s.cpu.mem && 16 <= |s.cpu.mem[BASE]| && s.cpu.mem[BASE][0] == 0xAA && Surcharge(s) == 0
    ensures IsSimple(DecodeAt(OPCODES, s, BASE, w, DEFAULT_SLOT), Stos(Narrow), Cost(s.costs, Low), BASE + 1, w)
  {
    hide DecodeAt, Read, ReadFields;
    WindowAt(s.cpu.mem, BASE, 0);
    var code := s.cpu.mem[BASE][0..16];
    var f := StosBytes(code);
    DecodesUnprefixed(s, BASE, w, code, f);
  }

  lemma NopDecodes(s: State)
    requires BASE in s.cpu.mem && 17 <= |s.cpu.mem[BASE]| && s.cpu.mem[BASE][1] == 0x90
    ensures IsSimple(DecodeAt(OPCODES, s, BASE + 1, false, DEFAULT_SLOT), Nop, Cost(s.costs, TierNone), BASE + 2, false)
  {
    hide DecodeAt, Read, ReadFields;
    WindowAt(s.cpu.mem, BASE, 1);
    var code := s.cpu.mem[BASE][1..17];
    var f := NopBytes(code);
    DecodesUnprefixed(s, BASE + 1, false, code, f);
  }

  lemma HltAfterDecodes(s: State, at: nat, w: bool)
    requires BASE in s.cpu.mem && at + 16 <= |s.cpu.mem[BASE]| && at < 0x1_0000 && s.cpu.mem[BASE][at] == 0xF4
    requires Surcharge(s) == 0
    ensures var d := DecodeAt(OPCODES, s, BASE + at, w, DEFAULT_SLOT);
            d.Ok? && d.value.slot.op == Hlt && d.value.slot.gasCost == Cost(s.costs, TierNone) && d.value.stop
  {
    hide DecodeAt, Read, ReadFields;
    WindowAt(s.cpu.mem, BASE, at);
    var code := s.cpu.mem[BASE][at..at + 16];
    var f := HltBytes(code);
    DecodesUnprefixed(s, BASE + at, w, code, f);
  }

  // ---------- running ----------

  function AfterJump(s: State): State
    requires CanPay(s)
  {
    s.(cpu := s.cpu.(eip := BASE), gas := s.gas - Cost(s.costs, Low))
  }

  function AfterStos(s: State): State
    requires OverwritesNext(s) && CanPay(s)
  {
    s.(cpu := s.cpu.(eip := BASE + 1, regs := s.cpu.regs[EDI := BASE + 2],
                     mem := s.cpu.mem[BASE := StringResults.Put(s.cpu.mem[BASE], 1, 0xF4)]),
       gas := s.gas - Cost(s.costs, Low) - Cost(s.costs, Low))
  }

  lemma StosRuns(hv: Hypervisor, s: State, p: Slot)
    requires OverwritesNext(s) && CanPay(s)
    requires p.op == Stos(Narrow) && p.gasCost == Cost(s.costs, Low) && !p.sizeOverride && p.eipSize == 1
    ensures RunSlot(Qx86(hv), p, AfterJump(s)) == Continue(AfterStos(s))
  {
    hide StringOp, AfterJump, AfterStos, Exec;
    var charged := AfterJump(s).(gas := SatSub(AfterJump(s).gas, p.gasCost));
    X86.ExecOnCpu(hv, p, charged);
    StosStores(s);
  }

  lemma StosStores(s: State)
    requires OverwritesNext(s) && CanPay(s)
    ensures AfterJump(s).gas >= Cost(s.costs, Low) && AfterStos(s).gas == AfterJump(s).gas - Cost(s.costs, Low)
    ensures StringOp(AfterJump(s).cpu, Stos(Narrow), false) == Done(AfterStos(s).cpu.(eip := BASE))
    ensures AfterStos(s).cpu.eip == BASE + 1
    ensures AfterStos(s) == AfterJump(s).(cpu := AfterStos(s).cpu, gas := AfterStos(s).gas)
  {
    var c := AfterJump(s).cpu;
    StringResults.ByteWrites(c.mem, c.regs[EDI], 0xF4);
    assert GetReg(c.regs, EAX, SizeByte) == Byte(0xF4);
    hide SetMem, GetReg;
    assert StosOp(c, SizeByte) == Done(AfterStos(s).cpu.(eip := BASE));
    hide StosOp;
  }

  lemma NopAdvances(hv: Hypervisor, p: Slot, s: State)
    requires p.op == Nop && s.gas >= p.gasCost
    ensures RunSlot(Qx86(hv), p, s) == Continue(s.(gas := s.gas - p.gasCost).Advance(p.eipSize))
  {
    hide Exec;
    X86.NopRuns(hv, p, s.(gas := s.gas - p.gasCost));
  }

  lemma HltHalts(hv: Hypervisor, p: Slot, s: State)
    requires p.op == Hlt && s.gas >= p.gasCost
    ensures RunSlot(Qx86(hv), p, s) == Halted(s.(gas := s.gas - p.gasCost))
  {
    hide RepLoop, RepGas, CpuOp;
  }

  /** One at a time, the hlt that was written runs. */
  lemma OneByOne(hv: Hypervisor, s: State)
    requires OverwritesNext(s) && CanPay(s)
    ensures Steps(Qx86(hv), s, 3) == Halted(AfterStos(s).(gas := AfterStos(s).gas - Cost(s.costs, TierNone)))
  {
    hide DecodeAt, RunSlot, Read;
    var m := Qx86(hv);
    JumpDecodes(s);
    JumpLands(hv, s, DecodeAt(OPCODES, s, s.cpu.eip, false, DEFAULT_SLOT).value);
    var t := AfterJump(s);
    assert Step(m, s) == Continue(t);
    StosDecodes(t, true);
    StosRuns(hv, s, DecodeAt(OPCODES, t, BASE, true, DEFAULT_SLOT).value.slot);
    var u := AfterStos(s);
    assert Step(m, t) == Continue(u);
    HltAfterDecodes(u, 1, true);
    HltHalts(hv, DecodeAt(OPCODES, u, BASE + 1, true, DEFAULT_SLOT).value.slot, u);
    hide Step;
    FirstStep(m, s, 2);
    FirstStep(m, t, 1);
    FirstStep(m, u, 0);
  }

  function AfterNop(s: State): (t: State)
    requires OverwritesNext(s) && CanPay(s)
    ensures t.cpu.eip == BASE + 2 && t.gas >= Cost(s.costs, TierNone)
  {
    var u := AfterStos(s);
    u.(cpu := u.cpu.(eip := BASE + 2), gas := u.gas - Cost(s.costs, TierNone))
  }

  /** Filled from the nop on, which is still a nop then, some cells run it, and
      with it the hlt that follows if that fits. */
  lemma FilledFromNop(hv: Hypervisor, s: State, gas: u64, cells: seq<Slot>)
    requires OverwritesNext(s) && CanPay(s) && gas > Cost(s.costs, TierNone)
    requires cells != [] && forall i :: 0 <= i < |cells| ==> cells[i] == DEFAULT_SLOT
    ensures var filled := FillFrom(Qx86(hv), s, BASE + 1, gas, false, false, cells);
            && filled.Ok?
            && RunSlots(Qx86(hv), filled.value, AfterStos(s)) ==
                 if |cells| == 1 then Continue(AfterNop(s))
                 else Halted(AfterNop(s).(gas := AfterNop(s).gas - Cost(s.costs, TierNone)))
  {
    hide DecodeAt, Exec, RunSlot, Read;
    var m := Qx86(hv);
    NopDecodes(s);
    var nop := DecodeAt(OPCODES, s, BASE + 1, false, DEFAULT_SLOT).value;
    NopAdvances(hv, nop.slot, AfterStos(s));
    Nops(hv);
    if |cells| == 1 {
      LastCell(m, s, BASE + 1, gas, false, cells, nop, AfterStos(s));
    } else {
      HltAfterDecodes(s, 2, false);
      var hlt := DecodeAt(OPCODES, s, BASE + 2, false, DEFAULT_SLOT).value;
      LastCell(m, s, BASE + 2, SatSub(gas, nop.slot.gasCost), false, cells[1..], hlt, AfterNop(s));
      HltHalts(hv, hlt.slot, AfterNop(s));
      FirstCell(m, s, BASE + 1, gas, false, cells, nop, AfterStos(s));
    }
  }

  /** A cycle that reads ahead over the crossing runs the stale nop. */
  lemma FirstCycle(hv: Hypervisor, s: State, n: nat)
    requires OverwritesNext(s) && CanPay(s) && n >= 3
    ensures Cycle(Qx86(hv), NewPipeline(n), s) ==
              if n == 3 then Continue(AfterNop(s))
              else Halted(AfterNop(s).(gas := AfterNop(s).gas - Cost(s.costs, TierNone)))
  {
    hide DecodeAt, Exec, RunSlot, Read, AfterNop, AfterStos, RunSlots;
    var m := Qx86(hv);
    var cells := NewPipeline(n);
    JumpDecodes(s);
    var jump := DecodeAt(OPCODES, s, s.cpu.eip, false, DEFAULT_SLOT).value;
    JumpLands(hv, s, jump);
    StosDecodes(s, false);
    var stos := DecodeAt(OPCODES, s, BASE, false, DEFAULT_SLOT).value;
    StosRuns(hv, s, stos.slot);
    var left := SatSub(s.gas, jump.slot.gasCost);
    FilledFromNop(hv, s, SatSub(left, stos.slot.gasCost), cells[2..]);
    assert cells[1..][1..] == cells[2..];
    FirstCell(m, s, BASE, left, false, cells[1..], stos, AfterJump(s));
    FirstCell(m, s, s.cpu.eip, s.gas, false, cells, jump, s);
    assert Cleared(cells) == cells;
  }

  /** The hlt after the nop, in a cycle of its own. */
  lemma LastCycle(hv: Hypervisor, s: State, prev: seq<Slot>)
    requires OverwritesNext(s) && CanPay(s) && prev != []
    ensures Cycle(Qx86(hv), prev, AfterNop(s)) == Halted(AfterNop(s).(gas := AfterNop(s).gas - Cost(s.costs, TierNone)))
  {
    hide DecodeAt, Exec, RunSlot, Read, RunSlots;
    var m := Qx86(hv);
    var v := AfterNop(s);
    HltAfterDecodes(v, 2, true);
    var hlt := DecodeAt(OPCODES, v, BASE + 2, true, DEFAULT_SLOT).value;
    HltHalts(hv, hlt.slot, v);
    Nops(hv);
    LastCell(m, v, BASE + 2, v.gas, true, Cleared(prev), hlt, v);
  }

  /** With code in writable memory at no extra cost the pipeline size still
      matters here: with one cell `execute` halts on the hlt the program has
      written, with three or more it runs the nop that was there and halts on the
      hlt after it. A landing that does not end the filling needs, besides the
      free surcharge, that what was read behind it stays as it was. */
  lemma PipelineSizeMattersThere(hv: Hypervisor, s: State, n: nat) returns (f: State, g: State)
    requires OverwritesNext(s) && CanPay(s) && n >= 3
    ensures f.cpu.eip == BASE + 1 && g.cpu.eip == BASE + 2
    ensures forall r :: Executes(Qx86(hv), 1, s, r) <==> r == Halted(f)
    ensures forall r :: Executes(Qx86(hv), n, s, r) <==> r == Halted(g)
  {
    hide FillFrom, RunSlots, Cleared, AfterNop, Steps, OverwritesNext;
    var m := Qx86(hv);
    f := AfterStos(s).(gas := AfterStos(s).gas - Cost(s.costs, TierNone));
    g := AfterNop(s).(gas := AfterNop(s).gas - Cost(s.costs, TierNone));
    OneByOne(hv, s);
    OneCellIsReference(m, NewPipeline(1), s, 3);
    OnlyOutcome(m, 1, s, 3);
    FirstCycle(hv, s, n);
    var c := if n == 3 then 2 else 1;
    if n == 3 {
      var filled := Fill(m, s, NewPipeline(3)).value;
      LastCycle(hv, s, filled);
      assert Cycles(m, filled, AfterNop(s), 1) == Halted(g);
      assert Cycles(m, NewPipeline(3), s, 2) == Halted(g);
    }
    OnlyOutcome(m, n, s, c);
  }

  // ---------- operands left over ----------

  const CODE: u32 := 0x1_0000

  /** `nop`, `jmp` to the next instruction, `nop`, `rep int3` in read-only memory. */
  predicate RepeatsInterrupt(s: State) {
    && s.cpu.eip == CODE && CODE in s.cpu.mem && 20 <= |s.cpu.mem[CODE]|
    && s.cpu.mem[CODE][..6] == [0x90, 0xEB, 0, 0x90, 0xF3, 0xCC]
    && s.cpu.regs[ECX] != 0
    && s.gas > 2 * Cost(s.costs, TierNone) + Cost(s.costs, Low) + Cost(s.costs, Moderate)
  }

  /** Interrupt 0 stops the machine. */
  ghost predicate StopsOnZero(hv: Hypervisor) {
    forall t: State :: hv(t, 0) == Raised(t, InternalVMStop)
  }

  lemma NopAt(s: State, i: nat)
    requires CODE in s.cpu.mem && i + 16 <= |s.cpu.mem[CODE]| && i < 0x8000 && s.cpu.mem[CODE][i] == 0x90
    ensures IsSimple(DecodeAt(OPCODES, s, CODE + i, false, DEFAULT_SLOT), Nop, Cost(s.costs, TierNone), CODE + i + 1, false)
  {
    hide DecodeAt, Read, ReadFields;
    WindowAt(s.cpu.mem, CODE, i);
    var code := s.cpu.mem[CODE][i..i + 16];
    var f := NopBytes(code);
    DecodesUnprefixed(s, CODE + i, false, code, f);
  }

  lemma JumpAt(s: State)
    requires CODE in s.cpu.mem && 17 <= |s.cpu.mem[CODE]| && s.cpu.mem[CODE][1] == 0xEB && s.cpu.mem[CODE][2] == 0
    ensures var d := DecodeAt(OPCODES, s, CODE + 1, false, DEFAULT_SLOT);
            && d.Ok? && d.value.slot.op == JumpRelative && d.value.next == CODE + 3 && !d.value.stop
            && d.value.slot.gasCost == Cost(s.costs, Low)
            && d.value.slot.args[0].location == Immediate(Byte(0))
  {
    hide DecodeAt, Read, ReadFields;
    WindowAt(s.cpu.mem, CODE, 1);
    var code := s.cpu.mem[CODE][1..17];
    var f := JumpBytes(code);
    DecodesUnprefixed(s, CODE + 1, false, code, f);
  }

  /** A rep slot keeps the operands of its cell. */
  lemma RepAt(s: State, prev: Slot)
    requires CODE in s.cpu.mem && 20 <= |s.cpu.mem[CODE]| && s.cpu.mem[CODE][4] == 0xF3 && s.cpu.mem[CODE][5] == 0xCC
    ensures DecodeAt(OPCODES, s, CODE + 4, false, prev)
         == Ok(Decoded(Slot(Repe, prev.args, Cost(s.costs, Moderate), 2, false, 0xCC), CODE + 4, true))
  {
    hide ScanPrefixes, ReadFields, Read;
    WindowAt(s.cpu.mem, CODE, 4);
    RepPrefix(s.cpu.mem[CODE][4..20]);
  }

  /** It halts on the operand 0 and fails without one. */
  lemma RepInterruptRuns(hv: Hypervisor, p: Slot, s: State)
    requires StopsOnZero(hv) && p.op == Repe && p.opcode == 0xCC && !p.sizeOverride
    requires s.cpu.regs[ECX] != 0 && s.gas > p.gasCost
    ensures p.args[0].location == Immediate(Byte(0)) ==>
              RunSlot(Qx86(hv), p, s) == Halted(s.(gas := s.gas - p.gasCost))
    ensures p.args[0].location == NoArg ==> Breaks(RunSlot(Qx86(hv), p, s))
  {
    assert RepFunction(p) == Interrupt;
    hide RepFunction, RepGas, CpuOp, DecodeAt, Decremented, StringOpcode;
  }

  // ---------- two cells at a time ----------

  /** Two cells, of which the second is decoded into what it holds. */
  lemma CycleOfTwo(m: Machine, prev: seq<Slot>, s: State, first: Decoded, second: Decoded)
    requires |prev| == 2 && !InWriteable(s.cpu.eip)
    requires m.decode(s, s.cpu.eip, false, DEFAULT_SLOT) == Ok(first)
    requires !first.stop && s.gas > first.slot.gasCost && RunSlot(m, first.slot, s).Continue?
    requires m.decode(s, first.next, false, prev[1]) == Ok(second)
    ensures Fill(m, s, prev) == Ok([first.slot, second.slot])
    ensures Cycle(m, prev, s) == RunSlot(m, second.slot, RunSlot(m, first.slot, s).st)
  {
    hide RunSlot;
    var cells := Cleared(prev);
    var left := SatSub(s.gas, first.slot.gasCost);
    var left' := SatSub(left, second.slot.gasCost);
    assert cells[1..] == [prev[1]] && [prev[1]][1..] == [];
    assert FillFrom(m, s, second.next, left', second.stop || left' == 0, false, []) == Ok([]);
    assert [second.slot] + [] == [second.slot];
    assert FillFrom(m, s, first.next, left, false, false, [prev[1]]) == Ok([second.slot]);
    assert [first.slot] + [second.slot] == [first.slot, second.slot];
    TwoSlots(m, first.slot, second.slot, s);
  }

  lemma TwoSlots(m: Machine, p: Slot, q: Slot, s: State)
    requires RunSlot(m, p, s).Continue?
    ensures RunSlots(m, [p, q], s) == RunSlot(m, q, RunSlot(m, p, s).st)
  {
    var t := RunSlot(m, p, s).st;
    assert [p, q][1..] == [q] && [q][1..] == [];
    assert RunSlots(m, [q], t) == RunSlot(m, q, t);
  }

  /** The state at a later instruction, when so much gas has been paid. */
  function Reached(s: State, at: u8, paid: nat): State
    requires paid <= s.gas
  {
    s.(cpu := s.cpu.(eip := CODE + at), gas := s.gas - paid)
  }

  /** With two cells the interrupt finds the displacement of the jump. */
  lemma InPairs(hv: Hypervisor, s: State)
    requires RepeatsInterrupt(s) && StopsOnZero(hv)
    ensures Cycles(Qx86(hv), NewPipeline(2), s, 2).Halted?
  {
    hide DecodeAt, Exec, RunSlot, Cycle, Fill;
    var m := Qx86(hv);
    FirstPair(hv, s);
    var prev := Fill(m, s, NewPipeline(2)).value;
    var t := Reached(s, 3, Cost(s.costs, TierNone) + Cost(s.costs, Low));
    SecondPair(hv, t, prev);
    assert Cycles(m, prev, t, 1) == Cycle(m, prev, t);
  }

  lemma FirstPair(hv: Hypervisor, s: State)
    requires RepeatsInterrupt(s)
    ensures var filled := Fill(Qx86(hv), s, NewPipeline(2));
            && filled.Ok? && filled.value[1].args[0].location == Immediate(Byte(0))
            && Cycle(Qx86(hv), NewPipeline(2), s) == Continue(Reached(s, 3, Cost(s.costs, TierNone) + Cost(s.costs, Low)))
  {
    hide DecodeAt, Exec, RunSlot, Cycle, Fill, SaneTable, Read;
    var m := Qx86(hv);
    NopAt(s, 0);
    JumpAt(s);
    var nop := DecodeAt(OPCODES, s, CODE, false, DEFAULT_SLOT).value;
    var jump := DecodeAt(OPCODES, s, CODE + 1, false, DEFAULT_SLOT).value;
    NopAdvances(hv, nop.slot, s);
    JumpRuns(hv, s);
    CycleOfTwo(m, NewPipeline(2), s, nop, jump);
  }

  /** The jump as it was decoded one instruction ahead. */
  lemma JumpRuns(hv: Hypervisor, s: State)
    requires RepeatsInterrupt(s)
    ensures var jump := DecodeAt(OPCODES, s, CODE + 1, false, DEFAULT_SLOT);
            jump.Ok? && RunSlot(Qx86(hv), jump.value.slot, Reached(s, 1, Cost(s.costs, TierNone)))
                     == Continue(Reached(s, 3, Cost(s.costs, TierNone) + Cost(s.costs, Low)))
  {
    hide DecodeAt, Exec, RunSlot, SaneTable, Read;
    JumpAt(s);
    var t := Reached(s, 1, Cost(s.costs, TierNone));
    SameWindow(OPCODES, s, t, CODE + 1, false, DEFAULT_SLOT) by { OpcodeTableIsSane(); }
    JumpLands(hv, t, DecodeAt(OPCODES, s, CODE + 1, false, DEFAULT_SLOT).value);
  }

  lemma SecondPair(hv: Hypervisor, t: State, prev: seq<Slot>)
    requires CODE in t.cpu.mem && 20 <= |t.cpu.mem[CODE]| && t.cpu.mem[CODE][3] == 0x90
    requires t.cpu.mem[CODE][4] == 0xF3 && t.cpu.mem[CODE][5] == 0xCC && t.cpu.eip == CODE + 3
    requires StopsOnZero(hv) && t.cpu.regs[ECX] != 0 && t.gas > Cost(t.costs, TierNone) + Cost(t.costs, Moderate)
    requires |prev| == 2 && prev[1].args[0].location == Immediate(Byte(0))
    ensures Cycle(Qx86(hv), prev, t).Halted?
  {
    hide DecodeAt, Exec, RunSlot, Cycle, Fill, Read;
    NopAt(t, 3);
    var nop := DecodeAt(OPCODES, t, CODE + 3, false, DEFAULT_SLOT).value;
    NopAdvances(hv, nop.slot, t);
    RepAt(t, prev[1]);
    var rep := DecodeAt(OPCODES, t, CODE + 4, false, prev[1]).value;
    CycleOfTwo(Qx86(hv), prev, t, nop, rep);
    RepInterruptRuns(hv, rep.slot, RunSlot(Qx86(hv), nop.slot, t).st);
  }

  lemma NopSteps(hv: Hypervisor, t: State, at: u8)
    requires t.cpu.eip == CODE + at && CODE in t.cpu.mem && at + 16 <= |t.cpu.mem[CODE]| && t.cpu.mem[CODE][at] == 0x90
    requires t.gas >= Cost(t.costs, TierNone)
    ensures Step(Qx86(hv), t) == Continue(t.(cpu := t.cpu.(eip := CODE + at + 1), gas := t.gas - Cost(t.costs, TierNone)))
  {
    hide DecodeAt, Exec, RunSlot, Read;
    NopAt(t, at);
    NopAdvances(hv, DecodeAt(OPCODES, t, CODE + at, false, DEFAULT_SLOT).value.slot, t);
  }

  lemma JumpSteps(hv: Hypervisor, t: State)
    requires CODE in t.cpu.mem && 17 <= |t.cpu.mem[CODE]| && t.cpu.mem[CODE][1] == 0xEB && t.cpu.mem[CODE][2] == 0
    requires t.cpu.eip == CODE + 1 && t.gas >= Cost(t.costs, Low)
    ensures Step(Qx86(hv), t) == Continue(t.(cpu := t.cpu.(eip := CODE + 3), gas := t.gas - Cost(t.costs, Low)))
  {
    hide DecodeAt, Exec, RunSlot, Read;
    JumpAt(t);
    JumpLands(hv, t, DecodeAt(OPCODES, t, CODE + 1, false, DEFAULT_SLOT).value);
  }

  /** With one cell it finds no operand. */
  lemma Singly(hv: Hypervisor, s: State)
    requires RepeatsInterrupt(s) && StopsOnZero(hv)
    ensures Breaks(Steps(Qx86(hv), s, 4))
  {
    hide DecodeAt, Exec, RunSlot, Read;
    var m := Qx86(hv);
    var none, low := Cost(s.costs, TierNone), Cost(s.costs, Low);
    var t1, t3, t4 := Reached(s, 1, none), Reached(s, 3, none + low), Reached(s, 4, 2 * none + low);
    RepAt(t4, DEFAULT_SLOT);
    RepInterruptRuns(hv, DecodeAt(OPCODES, t4, CODE + 4, false, DEFAULT_SLOT).value.slot, t4);
    hide Step;
    NopSteps(hv, s, 0);
    JumpSteps(hv, t1);
    NopSteps(hv, t3, 3);
    FirstStep(m, s, 3);
    FirstStep(m, t1, 2);
    FirstStep(m, t3, 1);
    FirstStep(m, t4, 0);
  }

  /** In read-only code the pipeline size matters here: with two cells `execute`
      halts, as the hypervisor does on interrupt 0, and with one it fails. So the
      theorem on pipeline sizes has to leave out rep before int. */
  lemma LeftoverOperandMatters(hv: Hypervisor, s: State)
    requires RepeatsInterrupt(s) && StopsOnZero(hv)
    ensures forall r :: Executes(Qx86(hv), 1, s, r) ==> Breaks(r)
    ensures forall r :: Executes(Qx86(hv), 2, s, r) ==> r.Halted?
    ensures (exists r :: Executes(Qx86(hv), 1, s, r)) && (exists r :: Executes(Qx86(hv), 2, s, r))
  {
    hide Cycles, Steps;
    var m := Qx86(hv);
    Singly(hv, s);
    OneCellIsReference(m, NewPipeline(1), s, 4);
    OnlyOutcome(m, 1, s, 4);
    InPairs(hv, s);
    OnlyOutcome(m, 2, s, 2);
    hide Executes;
    assert Executes(m, 1, s, Cycles(m, NewPipeline(1), s, 4));
    assert Executes(m, 2, s, Cycles(m, NewPipeline(2), s, 2));
  }
}

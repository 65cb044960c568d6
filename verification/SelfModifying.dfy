// Where going on after OutOfGas does not do what an uninterrupted run does: a
// rep that overwrites its own code.

module SelfModifying {
  import opened Words
  import opened Errors
  import opened Structs
  import Memory
  import opened VMState
  import opened Opcodes
  import opened Fetch
  import opened Pipeline
  import Gas
  import opened Ops
  import Strings
  import StringResults
  import opened Programs
  import Crossing

  const BASE: u32 := 0x8000_0000

  /** `rep stosb` and `hlt` at the start of a writable block, about to write two
      bytes that encode `hlt` over the rep itself. */
  predicate OverwritesItself(c: Cpu) {
    && c.eip == BASE && BASE in c.mem && 18 <= |c.mem[BASE]|
    && c.mem[BASE][0] == 0xF3 && c.mem[BASE][1] == 0xAA && c.mem[BASE][2] == 0xF4
    && c.regs[EDI] == BASE && c.regs[ECX] == 2 && c.regs[EAX] % 0x100 == 0xF4 && !c.flags.direction
  }

  /** What the rep costs to start. */
  function StartCost(s: State): u64 {
    Wrap64(Cost(s.costs, Moderate) as int + Cost(s.costs, WriteableMemoryExec) as int)
  }

  const STOS_SLOT := DEFAULT_SLOT.(op := Repe, eipSize := 2, opcode := 0xAA)

  lemma WindowAt(m: Memory.Mem, block: u32, i: nat)
    requires block % 0x1_0000 == 0 && block in m && i + 16 <= |m[block]| && i < 0x1_0000
    ensures Memory.Read(m, block + i, 16) == Ok(m[block][i..i + 16])
  {
    assert m[block][i..][..16] == m[block][i..i + 16];
  }

  lemma RepPrefix(window: seq<u8>)
    requires |window| == 16 && window[0] == 0xF3 && window[1] !in {0x66, 0x0F, 0x67, 0xF2, 0xF3}
    ensures ScanPrefixes(NO_PREFIXES, window, 0) == Ok((NO_PREFIXES.(rep := RepEqual), 1))
  {
    var p := NO_PREFIXES.(rep := RepEqual);
    assert ScanPrefixes(p, window[1..], 1) == Ok((p, 1));
  }

  lemma RepDecodes(s: State)
    requires OverwritesItself(s.cpu)
    ensures DecodeAt(OPCODES, s, BASE, true, DEFAULT_SLOT)
         == Ok(Decoded(STOS_SLOT.(gasCost := StartCost(s)), BASE, true))
  {
    hide ScanPrefixes, ReadFields, Memory.Read;
    WindowAt(s.cpu.mem, BASE, 0);
    RepPrefix(s.cpu.mem[BASE][0..16]);
  }

  /** A cpu after i of the two bytes. */
  function Stored(c: Cpu, i: nat): Cpu
    requires OverwritesItself(c) && i <= 2
  {
    c.(mem := c.mem[BASE := if i == 0 then c.mem[BASE] else if i == 1 then StringResults.Put(c.mem[BASE], 0, 0xF4)
                            else StringResults.Put(StringResults.Put(c.mem[BASE], 0, 0xF4), 1, 0xF4)],
       regs := c.regs[EDI := BASE + i][ECX := 2 - i])
  }

  lemma StosTurn(c: Cpu, i: nat)
    requires OverwritesItself(c) && i < 2
    ensures Strings.Turn(Stored(c, i), Stos(Narrow), false) == Done(Stored(c, i + 1))
  {
    var t := Stored(c, i);
    StringResults.ByteWrites(t.mem, t.regs[EDI], 0xF4);
    assert GetReg(t.regs, EAX, SizeByte) == Byte(0xF4);
    hide Memory.SetMem, GetReg;
    var next := Stored(c, i + 1);
    assert t.mem[BASE := StringResults.Put(t.mem[BASE], i, 0xF4)] == next.mem;
    assert StosOp(t, SizeByte) == Done(t.(mem := next.mem, regs := t.regs[EDI := BASE + i + 1]));
    hide StosOp;
    assert StringOp(t, Stos(Narrow), false) == StosOp(t, SizeByte);
    hide StringOp;
    assert t.regs[EDI := BASE + i + 1][ECX := 2 - i - 1] == next.regs;
  }

  lemma StosFunction(p: Slot)
    requires p.opcode == 0xAA
    ensures RepFunction(p) == Stos(Narrow) && StringOpcode(p.opcode) && !RepFlagOpcode(p.opcode)
    ensures forall costs :: RepGas(costs, p) == Cost(costs, Low)
  {
  }

  lemma StosRepTurn(hv: Hypervisor, p: Slot, s: State, c: Cpu, i: nat, cost: u64)
    requires p.opcode == 0xAA && !p.sizeOverride && OverwritesItself(c) && i < 2 && s.cpu == Stored(c, i)
    ensures RepTurn(hv, p, s, cost) == Done(s.(cpu := Stored(c, i + 1), gas := SatSub(s.gas, cost)))
  {
    hide RepFunction, Strings.Turn, Stored;
    StosFunction(p);
    StosTurn(c, i);
    Strings.RepTurnIsTurn(hv, p, s, cost);
  }

  lemma OneByteLeft(hv: Hypervisor, p: Slot, s: State, c: Cpu, cost: u64)
    requires p.opcode == 0xAA && !p.sizeOverride && OverwritesItself(c) && s.cpu == Stored(c, 1)
    ensures RepLoop(hv, p, s, cost, false) ==
              if s.gas == 0 then Raised(s, OutOfGas) else Done(s.(cpu := Stored(c, 2), gas := SatSub(s.gas, cost)))
  {
    hide RepTurn, RepFunction;
    StosFunction(p);
    assert RepCount(s.cpu, false) == 1;
    if s.gas > 0 {
      StosRepTurn(hv, p, s, c, 1, cost);
      var t := s.(cpu := Stored(c, 2), gas := SatSub(s.gas, cost));
      assert RepCount(t.cpu, false) == 0;
      assert RepLoop(hv, p, t, cost, false) == Done(t);
    }
  }

  /** The loop stores one byte or two, as the gas allows. */
  lemma TwoBytesLeft(hv: Hypervisor, p: Slot, s: State, c: Cpu, cost: u64)
    requires p.opcode == 0xAA && !p.sizeOverride && OverwritesItself(c) && s.cpu == c && s.gas > 0
    ensures RepLoop(hv, p, s, cost, false) ==
              if s.gas <= cost then Raised(s.(cpu := Stored(c, 1), gas := 0), OutOfGas)
              else Done(s.(cpu := Stored(c, 2), gas := SatSub(SatSub(s.gas, cost), cost)))
  {
    assert Stored(c, 0) == c by { NothingStored(c); }
    hide RepTurn, RepFunction;
    StosFunction(p);
    assert RepCount(s.cpu, false) == 2;
    StosRepTurn(hv, p, s, c, 0, cost);
    hide Stored;
    OneByteLeft(hv, p, s.(cpu := Stored(c, 1), gas := SatSub(s.gas, cost)), c, cost);
  }

  lemma NothingStored(c: Cpu)
    requires OverwritesItself(c)
    ensures Stored(c, 0) == c
  {
    assert c.mem[BASE := c.mem[BASE]] == c.mem;
    assert c.regs[EDI := c.regs[EDI]][ECX := c.regs[ECX]] == c.regs;
  }

  // ---------- steps ----------

  lemma RepSteps(hv: Hypervisor, s: State)
    requires OverwritesItself(s.cpu) && s.gas > StartCost(s)
    ensures var left := s.gas - StartCost(s);
            Step(Qx86(hv), s) ==
              if left <= Cost(s.costs, Low)
              then Failed(s.(cpu := Stored(s.cpu, 1), gas := 0, errorEip := BASE), OutOfGas)
              else Continue(s.(cpu := Stored(s.cpu, 2).(eip := BASE + 2),
                               gas := SatSub(SatSub(left, Cost(s.costs, Low)), Cost(s.costs, Low))))
  {
    hide DecodeAt, RepLoop, RepGas, Stored, ExecOnce;
    RepDecodes(s);
    var p := STOS_SLOT.(gasCost := StartCost(s));
    var charged := s.(gas := SatSub(s.gas, p.gasCost));
    StosFunction(p);
    TwoBytesLeft(hv, p, charged, s.cpu, Cost(s.costs, Low));
    StoredStays(s.cpu);
  }

  lemma StoredStays(c: Cpu)
    requires OverwritesItself(c)
    ensures Stored(c, 1).eip == BASE && Stored(c, 2).eip == BASE
  {
  }

  /** What a hlt costs in writable memory. */
  function HltCost(s: State): u64 {
    Wrap64(Cost(s.costs, TierNone) as int + Cost(s.costs, WriteableMemoryExec) as int)
  }

  lemma HltSteps(hv: Hypervisor, s: State, at: nat)
    requires at < 0x1_0000 && s.cpu.eip == BASE + at
    requires BASE in s.cpu.mem && at + 16 <= |s.cpu.mem[BASE]| && s.cpu.mem[BASE][at] == 0xF4
    requires s.gas >= HltCost(s)
    ensures Step(Qx86(hv), s).Halted? && Step(Qx86(hv), s).st.cpu == s.cpu
  {
    hide DecodeAt, ReadFields, Memory.Read, RepLoop, CpuOp;
    WindowAt(s.cpu.mem, BASE, at);
    var code := s.cpu.mem[BASE][at..at + 16];
    var f := Crossing.HltBytes(code);
    Crossing.DecodesUnprefixed(s, s.cpu.eip, true, code, f);
    assert FieldsGas(s.costs, f, true) == HltCost(s);
  }

  /** Out of gas after the first byte and refuelled, the machine meets the hlt it
      has just written and halts with one byte left to store; the uninterrupted
      run stores both. Code that is overwritten where the run was interrupted is
      the exception that going on after OutOfGas needs. */
  lemma ResumeDiffersHere(hv: Hypervisor, s: State, t: State, y: State)
    requires OverwritesItself(s.cpu) && Gas.SameButGas(s, t)
    requires StartCost(s) < s.gas <= StartCost(s) + Cost(s.costs, Low)
    requires t.gas >= StartCost(s) + 2 * Cost(s.costs, Low) + HltCost(s) + 1
    requires Gas.SameButGas(Step(Qx86(hv), s).st, y) && y.gas >= HltCost(s)
    ensures Step(Qx86(hv), s).Failed? && Step(Qx86(hv), s).error == OutOfGas
    ensures Steps(Qx86(hv), t, 2).Halted? && Steps(Qx86(hv), t, 2).st.cpu.regs[ECX] == 0
    ensures Steps(Qx86(hv), y, 1).Halted? && Steps(Qx86(hv), y, 1).st.cpu.regs[ECX] == 1
  {
    hide Step, HltCost, StartCost, Cost;
    assert StartCost(t) == StartCost(s) && HltCost(t) == HltCost(s) by { SameCosts(s, t); }
    RepSteps(hv, s);
    RepSteps(hv, t);
    assert HltCost(y) == HltCost(s) by { SameCosts(y, s); }
    HltSteps(hv, y, 0);
    var u := Step(Qx86(hv), t).st;
    assert HltCost(u) == HltCost(s) by { SameCosts(u, s); }
    HltSteps(hv, u, 2);
    assert Steps(Qx86(hv), y, 1) == Step(Qx86(hv), y);
    assert Steps(Qx86(hv), t, 2) == Steps(Qx86(hv), u, 1);
    assert Steps(Qx86(hv), u, 1) == Step(Qx86(hv), u);
  }

  lemma SameCosts(s: State, t: State)
    requires s.costs == t.costs
    ensures StartCost(s) == StartCost(t) && HltCost(s) == HltCost(t)
  {
  }
}

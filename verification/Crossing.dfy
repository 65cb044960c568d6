// Where the pipeline length does show: reading on from read-only into writable memory.

module Crossing {
  import opened Words
  import opened Errors
  import opened Structs
  import opened Memory
  import opened VMState
  import opened Opcodes
  import opened Fetch
  import opened Pipeline
  import opened Refinement
  import opened Runs
  import opened Ops
  import opened X86
  import opened Programs

  /** The surcharge for code in writable memory. */
  function Surcharge(s: State): u64 {
    Cost(s.costs, WriteableMemoryExec)
  }

  lemma WrapLater(x: int, w: u64)
    requires Wrap64(x) as int + w < 0x1_0000_0000_0000_0000
    ensures Wrap64(x + w) == Wrap64(x) + w
  {
  }

  /** Decoding with and without the surcharge gives the same slot but for its gas. */
  lemma SurchargeOnly(table: Table, s: State, eip: u32)
    requires var d := DecodeAt(table, s, eip, false, DEFAULT_SLOT);
             d.Ok? && !d.value.slot.op.Repe? && !d.value.slot.op.Repne?
             && d.value.slot.gasCost + Surcharge(s) < 0x1_0000_0000_0000_0000
    ensures var d := DecodeAt(table, s, eip, false, DEFAULT_SLOT).value;
            var w := DecodeAt(table, s, eip, true, DEFAULT_SLOT);
            w.Ok? && w.value.slot == d.slot.(gasCost := d.slot.gasCost + Surcharge(s))
  {
    hide ReadFields, ScanPrefixes, GetArg, Cost, MemoryGas, JumpBase, Wrap64, Wrap32;
    var window := Read(s.cpu.mem, eip, 16).value;
    var (p, size) := ScanPrefixes(NO_PREFIXES, window, 0).value;
    if p.rep == NoRep {
      var f := ReadFields(table, p, size, window[size..], DEFAULT_SLOT.args).value;
      var base := (if f.hasModRM then Cost(s.costs, ModRMSurcharge) as int else 0)
                  + Cost(s.costs, f.o.gas) as int
                  + (if f.o.behavior == Unpredictable then Cost(s.costs, ConditionalBranch) as int else 0)
                  + MemoryGas(s.costs, f.args);
      WrapLater(base, Surcharge(s));
    }
  }

  /** Neither halting nor working on the cpu touches the gas or uses it up. */
  lemma GasCarriesOver(hv: Hypervisor, p: Slot, s: State)
    requires OnCpu(p.op) || p.op.Hlt?
    ensures var r := RunSlot(Qx86(hv), p, s);
            if s.gas < p.gasCost then r == Failed(s.(gas := 0), OutOfGas)
            else r.st.gas == s.gas - p.gasCost && (r.Failed? ==> r.error != OutOfGas)
  {
    hide CpuOp, RepLoop, RepGas;
    if OnCpu(p.op) {
      ExecOnCpu(hv, p, s.(gas := SatSub(s.gas, p.gasCost)));
      CpuOpsHarmless(s.cpu, p.op, p);
    }
  }

  /** The two instructions of a crossing: one in read-only memory that the decoder
      reads past and that can be paid for and run, and what it reads next in
      writable memory, which the first one leaves as it is. */
  ghost predicate Crosses(hv: Hypervisor, s: State, first: Decoded, landing: Decoded) {
    && !InWriteable(s.cpu.eip)
    && DecodeAt(OPCODES, s, s.cpu.eip, false, DEFAULT_SLOT) == Ok(first)
    && !first.stop && InWriteable(first.next)
    && s.gas > first.slot.gasCost
    && RunSlot(Qx86(hv), first.slot, s).Continue?
    && DecodeAt(OPCODES, s, first.next, false, DEFAULT_SLOT) == Ok(landing)
    && DecodeAt(OPCODES, Landed(hv, s, first), first.next, false, DEFAULT_SLOT) == Ok(landing)
    && (OnCpu(landing.slot.op) || landing.slot.op.Hlt?)
    && landing.slot.gasCost + Surcharge(s) < 0x1_0000_0000_0000_0000
  }

  /** The state in which the landing runs. */
  function Landed(hv: Hypervisor, s: State, first: Decoded): State {
    RunSlot(Qx86(hv), first.slot, s).st
  }

  lemma ReadPastOnCpu(s: State, eip: u32)
    requires var d := DecodeAt(OPCODES, s, eip, false, DEFAULT_SLOT); d.Ok? && !d.value.stop
    ensures OnCpu(DecodeAt(OPCODES, s, eip, false, DEFAULT_SLOT).value.slot.op)
  {
    hide DecodeAt, SaneTable, FieldsGas, GetArg, JumpBase;
    OpcodeTableIsSane();
    RepsStop(OPCODES, s, eip, false, DEFAULT_SLOT);
    var f := DecodedFields(OPCODES, s, eip, false, DEFAULT_SLOT);
  }

  lemma Lands(hv: Hypervisor, s: State, first: Decoded, landing: Decoded)
    requires Crosses(hv, s, first, landing)
    ensures var t := Landed(hv, s, first);
            t.cpu.eip == first.next && t.gas == s.gas - first.slot.gasCost && t.costs == s.costs
  {
    hide DecodeAt, Exec, CpuOp, SaneTable, FollowsPredictions, StopsInWriteable, Read;
    var charged := s.(gas := SatSub(s.gas, first.slot.gasCost));
    ReadPastOnCpu(s, s.cpu.eip);
    ExecOnCpu(hv, first.slot, charged);
    MachinePredicts(OPCODES, hv) by { OpcodeTableIsSane(); }
    Predicted(Qx86(hv), s, s, false, DEFAULT_SLOT, charged.gas);
  }

  /** The landing is fetched with the surcharge on top. */
  lemma LandingIsDearer(hv: Hypervisor, s: State, first: Decoded, landing: Decoded)
    requires Crosses(hv, s, first, landing)
    ensures Step(Qx86(hv), Landed(hv, s, first))
         == RunSlot(Qx86(hv), landing.slot.(gasCost := landing.slot.gasCost + Surcharge(s)), Landed(hv, s, first))
    ensures DecodeAt(OPCODES, Landed(hv, s, first), first.next, true, DEFAULT_SLOT).Ok?
  {
    hide DecodeAt, Exec, RunSlot, SaneTable, Read;
    Lands(hv, s, first, landing);
    SurchargeOnly(OPCODES, Landed(hv, s, first), first.next);
  }

  lemma JumpLands(hv: Hypervisor, s: State, jump: Decoded)
    requires DecodeAt(OPCODES, s, s.cpu.eip, false, DEFAULT_SLOT) == Ok(jump)
    requires jump.slot.op == JumpRelative && !jump.stop && s.gas >= jump.slot.gasCost
    ensures RunSlot(Qx86(hv), jump.slot, s)
         == Continue(s.(cpu := s.cpu.(eip := jump.next), gas := s.gas - jump.slot.gasCost))
  {
    hide DecodeAt, CpuOp, Exec, DecodeFields, JumpBase;
    var f := JumpFields(s, jump);
    var charged := s.(gas := SatSub(s.gas, jump.slot.gasCost));
    JumpFieldsRun(hv, s, f, charged);
  }

  lemma JumpFields(s: State, jump: Decoded) returns (f: Fields)
    requires DecodeAt(OPCODES, s, s.cpu.eip, false, DEFAULT_SLOT) == Ok(jump) && jump.slot.op == JumpRelative
    ensures Sane(f.o, f.hasModRM) && (f.o.source[0] == JumpRel ==> f.args[0].location.Immediate?)
    ensures DecodeFields(s, f, s.cpu.eip, false) == Ok(jump)
  {
    hide DecodeAt, DecodeFields;
    OpcodeTableIsSane();
    f := DecodedFields(OPCODES, s, s.cpu.eip, false, DEFAULT_SLOT);
  }

  lemma JumpFieldsRun(hv: Hypervisor, s: State, f: Fields, t: State)
    requires Sane(f.o, f.hasModRM) && (f.o.source[0] == JumpRel ==> f.args[0].location.Immediate?)
    requires DecodeFields(s, f, s.cpu.eip, false).Ok?
    requires var d := DecodeFields(s, f, s.cpu.eip, false).value; d.slot.op == JumpRelative && !d.stop
    requires t.cpu == s.cpu
    ensures var d := DecodeFields(s, f, s.cpu.eip, false).value;
            var e := Exec(hv, d.slot, t);
            e.Done? && e.value.Advance(d.slot.eipSize) == t.(cpu := t.cpu.(eip := d.next))
  {
    hide FieldsGas, RepLoop, RepGas, JumpBase;
    var d := DecodeFields(s, f, s.cpu.eip, false).value;
    ExecOnCpu(hv, d.slot, t);
  }

  /** The landing is the last cell that is decoded: the array ends there, or the
      instruction ends the filling. */
  predicate LandsLast(landing: Decoded, n: nat) {
    n == 2 || (n > 2 && landing.stop)
  }

  /** What a pipeline and the reference make of a crossing. */
  lemma CrossingUnfolds(hv: Hypervisor, s: State, first: Decoded, landing: Decoded, n: nat)
    requires Crosses(hv, s, first, landing) && LandsLast(landing, n)
    ensures Cycle(Qx86(hv), NewPipeline(n), s) == RunSlot(Qx86(hv), landing.slot, Landed(hv, s, first))
    ensures Steps(Qx86(hv), s, 2)
         == RunSlot(Qx86(hv), landing.slot.(gasCost := landing.slot.gasCost + Surcharge(s)), Landed(hv, s, first))
  {
    hide DecodeAt, Exec, RunSlot, Read;
    var m := Qx86(hv);
    var t := Landed(hv, s, first);
    assert Cleared(NewPipeline(n)) == NewPipeline(n);
    assert NopsDoNothing(m) by { Nops(hv); }
    TwoCells(m, s, first, landing, NewPipeline(n));
    LandingIsDearer(hv, s, first, landing);
    assert Steps(m, s, 2) == Steps(m, t, 1);
    assert Steps(m, t, 1) == Step(m, t);
  }

  lemma Nops(hv: Hypervisor)
    ensures NopsDoNothing(Qx86(hv))
  {
    hide Exec;
    forall p: Slot, s: State | p.op == Nop ensures Exec(hv, p, s) == Done(s) {
      NopRuns(hv, p, s);
    }
  }

  /** Filling and running some cells is running the first and then the others. */
  lemma FirstCell(m: Machine, s0: State, eip: u32, gas: u64, w: bool, cells: seq<Slot>, d: Decoded, t: State)
    requires cells != [] && m.decode(s0, eip, w, cells[0]) == Ok(d)
    requires var left := SatSub(gas, d.slot.gasCost); FillFrom(m, s0, d.next, left, d.stop || left == 0, w, cells[1..]).Ok?
    ensures var left := SatSub(gas, d.slot.gasCost);
            var rest := FillFrom(m, s0, d.next, left, d.stop || left == 0, w, cells[1..]).value;
            var filled := FillFrom(m, s0, eip, gas, false, w, cells);
            && filled.Ok?
            && RunSlots(m, filled.value, t) ==
                 if RunSlot(m, d.slot, t).Continue? then RunSlots(m, rest, RunSlot(m, d.slot, t).st) else RunSlot(m, d.slot, t)
  {
    hide RunSlot;
    var left := SatSub(gas, d.slot.gasCost);
    var rest := FillFrom(m, s0, d.next, left, d.stop || left == 0, w, cells[1..]).value;
    assert ([d.slot] + rest)[1..] == rest;
  }

  /** Cells that are not decoded run as nothing. */
  lemma LastCell(m: Machine, s0: State, eip: u32, gas: u64, w: bool, cells: seq<Slot>, d: Decoded, t: State)
    requires NopsDoNothing(m) && cells != [] && m.decode(s0, eip, w, cells[0]) == Ok(d)
    requires d.stop || cells[1..] == []
    ensures var filled := FillFrom(m, s0, eip, gas, false, w, cells);
            filled.Ok? && RunSlots(m, filled.value, t) == RunSlot(m, d.slot, t)
  {
    hide RunSlot;
    var left := SatSub(gas, d.slot.gasCost);
    var r := RunSlot(m, d.slot, t);
    StoppedFill(m, s0, d.next, left, w, cells[1..], r.st);
    assert cells[1..] == [] ==> FillFrom(m, s0, d.next, left, d.stop || left == 0, w, cells[1..]) == Ok([]);
    FirstCell(m, s0, eip, gas, w, cells, d, t);
  }

  lemma TwoCells(m: Machine, s: State, first: Decoded, second: Decoded, cells: seq<Slot>)
    requires NopsDoNothing(m) && |cells| >= 2 && cells[0] == DEFAULT_SLOT && cells[1] == DEFAULT_SLOT
    requires m.decode(s, s.cpu.eip, InWriteable(s.cpu.eip), DEFAULT_SLOT) == Ok(first)
    requires !first.stop && s.gas > first.slot.gasCost && RunSlot(m, first.slot, s).Continue?
    requires m.decode(s, first.next, InWriteable(s.cpu.eip), DEFAULT_SLOT) == Ok(second)
    requires second.stop || |cells| == 2
    ensures var filled := FillFrom(m, s, s.cpu.eip, s.gas, false, InWriteable(s.cpu.eip), cells);
            filled.Ok? && RunSlots(m, filled.value, s) == RunSlot(m, second.slot, RunSlot(m, first.slot, s).st)
  {
    hide RunSlot;
    var w := InWriteable(s.cpu.eip);
    LastCell(m, s, first.next, SatSub(s.gas, first.slot.gasCost), w, cells[1..], second, RunSlot(m, first.slot, s).st);
    FirstCell(m, s, s.cpu.eip, s.gas, w, cells, first, s);
  }

  /** On a crossing that ends the cycle, decoding ahead agrees with executing two
      instructions if and only if code in writable memory costs nothing extra or
      the landing cannot be paid for anyway. */
  lemma CrossingAgreesIff(hv: Hypervisor, s: State, first: Decoded, landing: Decoded, n: nat)
    requires Crosses(hv, s, first, landing) && LandsLast(landing, n)
    ensures Cycle(Qx86(hv), NewPipeline(n), s) == Steps(Qx86(hv), s, 2)
       <==> Surcharge(s) == 0 || s.gas - first.slot.gasCost < landing.slot.gasCost
  {
    hide Cycle, Steps, RunSlot, DecodeAt, Read;
    CrossingUnfolds(hv, s, first, landing, n);
    Lands(hv, s, first, landing);
    var t := Landed(hv, s, first);
    var dear := landing.slot.(gasCost := landing.slot.gasCost + Surcharge(s));
    GasCarriesOver(hv, landing.slot, t);
    GasCarriesOver(hv, dear, t);
  }

  // ---------- whole runs ----------

  /** A crossing onto a hlt: `execute` with one cell and with any larger number
      end alike if and only if the surcharge is free or the hlt cannot be paid
      for. The claim that the pipeline size never matters fails otherwise. */
  lemma CrossingRunsAgreeIff(hv: Hypervisor, s: State, first: Decoded, landing: Decoded, n: nat)
    requires Crosses(hv, s, first, landing) && landing.slot.op.Hlt? && n >= 2
    ensures (forall r :: Executes(Qx86(hv), 1, s, r) <==> Executes(Qx86(hv), n, s, r))
       <==> Surcharge(s) == 0 || s.gas - first.slot.gasCost < landing.slot.gasCost
  {
    hide Cycle, Step, DecodeAt, Fill, Read, Landed;
    var m := Qx86(hv);
    var t := Landed(hv, s, first);
    HltStops(s, first.next);
    CrossingUnfolds(hv, s, first, landing, n);
    CrossingAgreesIff(hv, s, first, landing, n);
    HltEnds(hv, landing.slot, t);
    assert Cycles(m, NewPipeline(n), s, 1) == Cycle(m, NewPipeline(n), s);
    OnlyOutcome(m, n, s, 1);
    OneCellIsReference(m, NewPipeline(1), s, 2);
    HltEnds(hv, landing.slot.(gasCost := landing.slot.gasCost + Surcharge(s)), t);
    OnlyOutcome(m, 1, s, 2);
    hide Cycles, Steps, Executes;
    var one, many := Cycles(m, NewPipeline(1), s, 2), Cycles(m, NewPipeline(n), s, 1);
    assert Executes(m, 1, s, one) && Executes(m, n, s, many);
  }

  /** The decoder stops at a hlt. */
  lemma HltStops(s: State, eip: u32)
    requires var d := DecodeAt(OPCODES, s, eip, false, DEFAULT_SLOT); d.Ok? && d.value.slot.op.Hlt?
    ensures DecodeAt(OPCODES, s, eip, false, DEFAULT_SLOT).value.stop
  {
    OpcodeTableIsSane();
    hide DecodeAt, SaneTable, FieldsGas, GetArg, JumpBase;
    var f := DecodedFields(OPCODES, s, eip, false, DEFAULT_SLOT);
  }

  lemma HltEnds(hv: Hypervisor, p: Slot, s: State)
    requires p.op.Hlt?
    ensures !RunSlot(Qx86(hv), p, s).Continue?
  {
    hide RepLoop, RepGas, CpuOp;
  }

  // ---------- a program that does it ----------

  /** `jmp` at 0x7FFFFFF0 over 14 bytes, to 0x80000000. */
  predicate JumpsOut(s: State) {
    && s.cpu.eip == 0x7FFF_FFF0
    && var code := Read(s.cpu.mem, 0x7FFF_FFF0, 16);
    && code.Ok? && code.value[0] == 0xEB && code.value[1] == 14
  }

  /** The same with `hlt` at 0x80000000. */
  predicate JumpsOntoHlt(s: State) {
    && JumpsOut(s)
    && var target := Read(s.cpu.mem, 0x8000_0000, 16);
    && target.Ok? && target.value[0] == 0xF4
  }

  lemma DecodesUnprefixed(s: State, eip: u32, w: bool, window: seq<u8>, f: Fields)
    requires Read(s.cpu.mem, eip, 16) == Ok(window) && window[0] !in {0x66, 0x0F, 0x67, 0xF2, 0xF3}
    requires ReadFields(OPCODES, NO_PREFIXES, 0, window, NO_ARGS) == Ok(f)
    ensures DecodeAt(OPCODES, s, eip, w, DEFAULT_SLOT) == DecodeFields(s, f, eip, w)
  {
    assert ScanPrefixes(NO_PREFIXES, window, 0) == Ok((NO_PREFIXES, 0));
    hide ScanPrefixes, ReadFields, DecodeFields, Read;
    assert window[0..] == window;
  }

  lemma JumpRow()
    ensures Lookup(0xEB) == Whole(Define(JumpRelative, REL8, NOTHING, Low, RelativeJump))
  {
  }

  lemma JumpBytes(code: seq<u8>) returns (f: Fields)
    requires |code| == 16 && code[0] == 0xEB
    ensures ReadFields(OPCODES, NO_PREFIXES, 0, code, NO_ARGS) == Ok(f)
    ensures f.o == Define(JumpRelative, REL8, NOTHING, Low, RelativeJump) && !f.hasModRM
    ensures f.args[0] == OpArgument(Immediate(Byte(code[1])), false) && !f.args[1].isMemory && !f.args[2].isMemory
    ensures f.size == 2 && !f.sizeOverride
  {
    JumpRow();
    hide Lookup;
    f := ReadFields(OPCODES, NO_PREFIXES, 0, code, NO_ARGS).value;
  }

  lemma HltRow()
    ensures Lookup(0xF4) == Whole(Define(Hlt, NOTHING, NOTHING, TierNone, UnpredictableNoGas))
  {
  }

  lemma HltBytes(code: seq<u8>) returns (f: Fields)
    requires |code| == 16 && code[0] == 0xF4
    ensures ReadFields(OPCODES, NO_PREFIXES, 0, code, NO_ARGS) == Ok(f)
    ensures f.o == Define(Hlt, NOTHING, NOTHING, TierNone, UnpredictableNoGas) && !f.hasModRM
    ensures !f.args[0].isMemory && !f.args[1].isMemory && !f.args[2].isMemory
  {
    HltRow();
    hide Lookup;
    f := ReadFields(OPCODES, NO_PREFIXES, 0, code, NO_ARGS).value;
  }

  lemma JumpDecodes(s: State)
    requires JumpsOut(s)
    ensures var d := DecodeAt(OPCODES, s, s.cpu.eip, false, DEFAULT_SLOT);
            && d.Ok? && d.value.slot.op == JumpRelative && d.value.next == 0x8000_0000 && !d.value.stop
            && d.value.slot.gasCost == Cost(s.costs, Low)
  {
    hide DecodeAt, Read, ReadFields;
    var code := Read(s.cpu.mem, 0x7FFF_FFF0, 16).value;
    var f := JumpBytes(code);
    DecodesUnprefixed(s, s.cpu.eip, false, code, f);
  }

  lemma HltDecodes(s: State)
    requires JumpsOntoHlt(s)
    ensures var d := DecodeAt(OPCODES, s, 0x8000_0000, false, DEFAULT_SLOT);
            d.Ok? && d.value.slot.op == Hlt && d.value.slot.gasCost == Cost(s.costs, TierNone)
  {
    hide DecodeAt, Read, ReadFields;
    var code := Read(s.cpu.mem, 0x8000_0000, 16).value;
    var f := HltBytes(code);
    DecodesUnprefixed(s, 0x8000_0000, false, code, f);
  }

  /** For this program the pipeline size matters exactly when the surcharge is
      not free and there is gas for the hlt. */
  lemma PipelineSizeMattersHere(hv: Hypervisor, s: State, n: nat)
    requires JumpsOntoHlt(s) && s.gas > Cost(s.costs, Low) && n >= 2
    requires Cost(s.costs, TierNone) + Surcharge(s) < 0x1_0000_0000_0000_0000
    ensures (forall r :: Executes(Qx86(hv), 1, s, r) <==> Executes(Qx86(hv), n, s, r))
       <==> Surcharge(s) == 0 || s.gas - Cost(s.costs, Low) < Cost(s.costs, TierNone)
  {
    hide DecodeAt, Executes, Read, RunSlot;
    JumpDecodes(s);
    HltDecodes(s);
    var jump := DecodeAt(OPCODES, s, s.cpu.eip, false, DEFAULT_SLOT).value;
    JumpLands(hv, s, jump);
    SameWindow(OPCODES, s, Landed(hv, s, jump), 0x8000_0000, false, DEFAULT_SLOT) by { OpcodeTableIsSane(); }
    CrossingRunsAgreeIff(hv, s, jump, DecodeAt(OPCODES, s, 0x8000_0000, false, DEFAULT_SLOT).value, n);
  }
}

// The theorems about whole runs, for the x86 machine itself.

module Programs {
  import opened Words
  import opened Errors
  import Structs
  import opened Memory
  import opened VMState
  import opened Opcodes
  import opened Fetch
  import Locality
  import opened Pipeline
  import opened Refinement
  import opened Runs
  import opened Ops
  import opened X86

  /** The x86 machine with the modelled opcode table. */
  function Qx86(hv: Hypervisor): Machine {
    MachineOf(OPCODES, hv)
  }

  /** An instruction in read-only memory that does not jump or run into writable
      memory, unless it is a branch the decoder stops at, and is no rep before int. */
  predicate SoundInstruction(s: State, eip: u32) {
    !InWriteable(eip) ==>
      var d := DecodeAt(OPCODES, s, eip, false, DEFAULT_SLOT);
      d.Ok? ==>
        && (!d.value.stop ==> !InWriteable(d.value.next))
        && (d.value.slot.op == Repe ==> !RepFunction(d.value.slot).Interrupt?)
  }

  /** Every instruction the run reaches is sound. */
  ghost predicate SoundRun(hv: Hypervisor, s: State) {
    forall k: nat :: Steps(Qx86(hv), s, k).Continue? ==>
      SoundInstruction(Steps(Qx86(hv), s, k).st, Steps(Qx86(hv), s, k).st.cpu.eip)
  }

  /** A condition on the read-only bytes alone: wherever decoding starts below
      0x80000000, the instruction is sound. */
  ghost predicate SoundCode(s: State) {
    forall eip: u32 :: SoundInstruction(s, eip)
  }

  lemma {:induction false} RepLoopIgnoresArgs(hv: Hypervisor, p: Slot, a: Structs.Args, s: State, gasCost: u64, until: bool)
    requires StringOpcode(p.opcode)
    ensures RepLoop(hv, p.(args := a), s, gasCost, until) == RepLoop(hv, p, s, gasCost, until)
    decreases RepCount(s.cpu, p.sizeOverride)
  {
    hide RepFunction, StringOp, ExecOnce, IsStringOp, StringOpcode, RepFlagOpcode, RepCount, Decremented;
    var q := p.(args := a);
    assert RepFunction(q) == RepFunction(p) by { SameRepFunction(p, a); }
    if RepCount(s.cpu, p.sizeOverride) != 0 && s.gas != 0 {
      StringTurn(hv, RepFunction(p), p, s);
      StringTurn(hv, RepFunction(p), q, s);
      var t := RepTurn(hv, p, s, gasCost);
      if t.Done? {
        RepTurnCounts(hv, p, s, gasCost);
        RepLoopIgnoresArgs(hv, p, a, t.value, gasCost, until);
      }
    }
  }

  lemma SameRepFunction(p: Slot, a: Structs.Args)
    ensures RepFunction(p.(args := a)) == RepFunction(p)
    ensures forall costs :: RepGas(costs, p.(args := a)) == RepGas(costs, p)
  {
    hide Lookup;
  }

  lemma RepSlotsIgnoreArgs(table: Table, hv: Hypervisor, p: Slot)
    requires p.op == Repne || (p.op == Repe && StringOpcode(p.opcode))
    ensures IgnoresArgs(MachineOf(table, hv), p)
  {
    hide RepLoop, RepGas, DecodeAt, ExecOnce;
    forall a: Structs.Args, t: State
      ensures Exec(hv, p.(args := a), t) == Exec(hv, p, t)
    {
      SameRepFunction(p, a);
      if StringOpcode(p.opcode) {
        RepLoopIgnoresArgs(hv, p, a, t, RepGas(t.costs, p), p.op == Repne);
      }
    }
  }

  /** rep before any other opcode than a string opcode, hlt or int: the function is
      called once, on whatever arguments the cell holds, and then the loop fails. */
  lemma RepElsewhereFails(hv: Hypervisor, p: Slot, s: State, gasCost: u64)
    requires !StringOpcode(p.opcode) && OnCpu(RepFunction(p))
    ensures var r := RepLoop(hv, p, s, gasCost, false);
            if RepCount(s.cpu, p.sizeOverride) == 0 then r == Done(s)
            else if s.gas == 0 then r == Raised(s, OutOfGas)
            else r.Raised? && r.error.Ordinary()
  {
    hide CpuOp, RepFunction, StringOpcode, OnCpu, RepCount, Decremented;
    CpuOpsHarmless(s.cpu, RepFunction(p), p);
    OnCpuIsNeither(RepFunction(p));
  }

  lemma OnCpuIsNeither(op: Op)
    ensures OnCpu(op) <==> !op.Hlt? && !op.Interrupt? && !op.Repe? && !op.Repne?
  {
  }

  lemma RepOfHlt(hv: Hypervisor, p: Slot, s: State, gasCost: u64)
    requires RepFunction(p).Hlt?
    ensures RepLoop(hv, p, s, gasCost, false) ==
              if RepCount(s.cpu, p.sizeOverride) == 0 then Done(s)
              else if s.gas == 0 then Raised(s, OutOfGas)
              else Raised(s, InternalVMStop)
  {
    hide RepFunction, StringOpcode, RepCount, Decremented;
  }

  /** The arguments in the cell decide at most how a rep slot fails, unless the
      opcode is int. */
  lemma RepSlotsForgiveArgs(table: Table, hv: Hypervisor, p: Slot)
    requires p.op == Repne || (p.op == Repe && !RepFunction(p).Interrupt?)
    ensures ForgivesArgs(MachineOf(table, hv), p)
  {
    hide RepLoop, RepGas, DecodeAt, ExecOnce, RepFunction, StringOpcode, RepCount, OnCpu;
    if p.op == Repne || StringOpcode(p.opcode) {
      RepSlotsIgnoreArgs(table, hv, p);
    } else {
      OnCpuIsNeither(RepFunction(p));
      forall a: Structs.Args, t: State
        ensures Exec(hv, p.(args := a), t) == Exec(hv, p, t) || BothFail(Exec(hv, p.(args := a), t), Exec(hv, p, t))
      {
        SameRepFunction(p, a);
        if RepFunction(p).Hlt? {
          RepOfHlt(hv, p, t, RepGas(t.costs, p));
          RepOfHlt(hv, p.(args := a), t, RepGas(t.costs, p));
        } else {
          RepElsewhereFails(hv, p, t, RepGas(t.costs, p));
          RepElsewhereFails(hv, p.(args := a), t, RepGas(t.costs, p));
        }
      }
    }
  }

  lemma SoundInstructionIsSoundAt(hv: Hypervisor, s: State)
    requires SoundInstruction(s, s.cpu.eip)
    ensures SoundAt(Qx86(hv), s)
  {
    hide DecodeAt, Exec, RepFunction;
  }

  lemma OpcodeTableIsSane()
    ensures SaneTable(OPCODES)
  {
  }

  /** The bytes do not change, so sound code is sound whenever it runs. */
  lemma SoundCodeRunsSoundly(hv: Hypervisor, s: State)
    requires RespectsFrozen(hv) && SoundCode(s)
    ensures SoundRun(hv, s)
  {
    MachineKeepsFrozen(OPCODES, hv);
    OpcodeTableIsSane();
    hide Steps, DecodeAt, Frozen, Conforms, RepFunction, SaneTable, Qx86;
    forall k: nat | Steps(Qx86(hv), s, k).Continue?
      ensures SoundInstruction(Steps(Qx86(hv), s, k).st, Steps(Qx86(hv), s, k).st.cpu.eip)
    {
      var t := Steps(Qx86(hv), s, k).st;
      StepsFrozen(Qx86(hv), s, k);
      assert SoundInstruction(s, t.cpu.eip);
      if !InWriteable(t.cpu.eip) {
        DecodesFrozen(OPCODES, s, t, t.cpu.eip, DEFAULT_SLOT);
      }
    }
  }

  lemma Qx86Conforms(hv: Hypervisor)
    requires RespectsFrozen(hv)
    ensures Conforms(Qx86(hv))
  {
    hide Conforms;
    OpcodeTableIsSane();
    MachineConforms(OPCODES, hv);
  }

  // ---------- what is read ahead ----------

  /** What the decoder reads in `s0` for the instruction `s` is at is what `s`
      fetches: in writable memory the surcharge is free and the instruction has
      not been overwritten since. Besides, it is no rep before int. */
  predicate StillFresh(s0: State, s: State) {
    var eip := s.cpu.eip;
    var d := DecodeAt(OPCODES, s0, eip, false, DEFAULT_SLOT);
    && (InWriteable(eip) ==>
          Cost(s0.costs, WriteableMemoryExec) == 0 && DecodeAt(OPCODES, s, eip, false, DEFAULT_SLOT) == d)
    && (d.Ok? && d.value.slot.op == Repe ==> !RepFunction(d.value.slot).Interrupt?)
  }

  /** From every read-only address the run reaches, whatever can be read ahead
      there into n cells is still fresh when the run gets to it. */
  ghost predicate FreshRun(hv: Hypervisor, s: State, n: nat) {
    forall k: nat, i: nat ::
      i < n && Steps(Qx86(hv), s, k).Continue? && !InWriteable(Steps(Qx86(hv), s, k).st.cpu.eip) ==>
        FreshFrom(hv, Steps(Qx86(hv), s, k).st, i)
  }

  /** The same of one start, and i instructions later. */
  ghost predicate FreshFrom(hv: Hypervisor, s: State, i: nat) {
    Steps(Qx86(hv), s, i).Continue? && ReadsAhead(Qx86(hv), s, s, i) ==> StillFresh(s, Steps(Qx86(hv), s, i).st)
  }

  /** The same of one cycle of n cells, whatever the run meets later. */
  ghost predicate FreshCycle(hv: Hypervisor, s: State, n: nat) {
    !InWriteable(s.cpu.eip) ==> forall i: nat :: i < n ==> FreshFrom(hv, s, i)
  }

  lemma FreeSurcharge(table: Table, s: State, eip: u32, prev: Slot)
    requires Cost(s.costs, WriteableMemoryExec) == 0
    ensures var d, d' := DecodeAt(table, s, eip, false, prev), DecodeAt(table, s, eip, true, prev);
            if d.Err? then d' == d else d'.Ok? && d'.value.slot == d.value.slot
  {
    hide ReadFields, ScanPrefixes, GetArg, MemoryGas, JumpBase, Wrap64;
  }

  /** Besides the window, decoding looks at the gas schedule only. */
  lemma WindowDecides(table: Table, s: State, t: State, window: seq<u8>, eip: u32, w: bool, prev: Slot)
    requires SaneTable(table) && s.costs == t.costs && |window| == 16
    ensures DecodeWindow(table, s, window, eip, w, prev) == DecodeWindow(table, t, window, eip, w, prev)
  {
    hide ReadFields, ScanPrefixes, FieldsGas, SaneTable;
    var scan := ScanPrefixes(NO_PREFIXES, window, 0);
    if scan.Ok? && scan.value.1 < 16 && scan.value.0.rep == NoRep {
      FieldsAreSane(table, scan.value.0, scan.value.1, window[scan.value.1..], prev.args);
    }
  }

  lemma SameWindow(table: Table, s: State, t: State, eip: u32, w: bool, prev: Slot)
    requires SaneTable(table) && s.costs == t.costs && Read(s.cpu.mem, eip, 16) == Read(t.cpu.mem, eip, 16)
    ensures DecodeAt(table, s, eip, w, prev) == DecodeAt(table, t, eip, w, prev)
  {
    hide DecodeWindow, Read, SaneTable;
    var window := Read(s.cpu.mem, eip, 16);
    if window.Ok? {
      WindowDecides(table, s, t, window.value, eip, w, prev);
    }
  }

  /** An instruction whose own bytes have not been overwritten decodes as it did,
      whatever has been written behind it in the window. */
  lemma SameBytesDecode(table: Table, s: State, t: State, eip: u32, w: bool, prev: Slot)
    requires SaneTable(table) && s.costs == t.costs && DecodeAt(table, s, eip, w, prev).Ok?
    requires Read(t.cpu.mem, eip, 16).Ok?
    requires Locality.SameStart(Read(s.cpu.mem, eip, 16).value, Read(t.cpu.mem, eip, 16).value,
                       DecodeAt(table, s, eip, w, prev).value.slot.eipSize)
    ensures DecodeAt(table, t, eip, w, prev) == DecodeAt(table, s, eip, w, prev)
  {
    hide DecodeWindow, Read, SaneTable;
    var v, u := Read(s.cpu.mem, eip, 16).value, Read(t.cpu.mem, eip, 16).value;
    Locality.DecodeIsLocal(table, s, v, u, eip, w, prev);
    WindowDecides(table, s, t, u, eip, w, prev);
  }

  lemma FreshIsFetched(hv: Hypervisor, s0: State, s: State)
    requires RespectsFrozen(hv) && Frozen(s0, s) && StillFresh(s0, s)
    ensures FetchHolds(Qx86(hv), s0, s)
  {
    hide DecodeAt, Exec, RepFunction, ForgivesArgs, SaneTable, FetchHolds, Preserves;
    OpcodeTableIsSane();
    Qx86Conforms(hv);
    var eip := s.cpu.eip;
    var d := DecodeAt(OPCODES, s0, eip, false, DEFAULT_SLOT);
    if InWriteable(eip) {
      FreeSurcharge(OPCODES, s, eip, DEFAULT_SLOT);
    } else {
      DecodesFrozen(OPCODES, s0, s, eip, DEFAULT_SLOT);
    }
    if d.Ok? && IsRep(d.value.slot) {
      RepSlotsForgiveArgs(OPCODES, hv, d.value.slot);
    }
    SameSlotHolds(Qx86(hv), s0, s);
  }

  lemma FreshCycleIsSound(hv: Hypervisor, s: State, n: nat)
    requires RespectsFrozen(hv) && FreshCycle(hv, s, n)
    ensures !InWriteable(s.cpu.eip) ==> SoundFrom(Qx86(hv), s, s, n)
  {
    MachineKeepsFrozen(OPCODES, hv);
    hide Steps, Qx86, FetchHolds, ReadsAhead, StillFresh, RespectsFrozen, KeepsFrozen, Frozen;
    assert KeepsFrozen(Qx86(hv)) by { QIsMachine(hv); }
    forall i: nat | !InWriteable(s.cpu.eip) && i < n && Steps(Qx86(hv), s, i).Continue? && ReadsAhead(Qx86(hv), s, s, i)
      ensures FetchHolds(Qx86(hv), s, Steps(Qx86(hv), s, i).st)
    {
      StepsFrozen(Qx86(hv), s, i);
      assert FreshFrom(hv, s, i);
      FreshIsFetched(hv, s, Steps(Qx86(hv), s, i).st);
    }
  }

  /** A fresh run meets what the refinement asks of a program. */
  lemma FreshRunIsSound(hv: Hypervisor, s: State, n: nat)
    requires RespectsFrozen(hv) && FreshRun(hv, s, n)
    ensures Conforms(Qx86(hv)) && SoundProgram(Qx86(hv), s, n)
  {
    Qx86Conforms(hv);
    hide Conforms, Steps, Qx86, SoundFrom, FreshFrom, RespectsFrozen;
    forall k: nat | Steps(Qx86(hv), s, k).Continue? && !InWriteable(Steps(Qx86(hv), s, k).st.cpu.eip)
      ensures SoundFrom(Qx86(hv), Steps(Qx86(hv), s, k).st, Steps(Qx86(hv), s, k).st, n)
    {
      FreshCycleIsSound(hv, Steps(Qx86(hv), s, k).st, n);
    }
  }

  /** A run whose read-only code does not lead on into writable memory is fresh. */
  lemma SoundRunIsFresh(hv: Hypervisor, s: State, n: nat)
    requires RespectsFrozen(hv) && SoundRun(hv, s)
    ensures FreshRun(hv, s, n)
  {
    hide Conforms, Steps, SoundAt, SoundInstruction, Qx86, RespectsFrozen, ReadsAhead, StillFresh, Frozen;
    Qx86Conforms(hv);
    forall k: nat, i: nat | Steps(Qx86(hv), s, k).Continue? && !InWriteable(Steps(Qx86(hv), s, k).st.cpu.eip)
      ensures FreshFrom(hv, Steps(Qx86(hv), s, k).st, i)
    {
      var t := Steps(Qx86(hv), s, k).st;
      if Steps(Qx86(hv), t, i).Continue? && ReadsAhead(Qx86(hv), t, t, i) {
        forall l: nat | Steps(Qx86(hv), t, l).Continue?
          ensures SoundAt(Qx86(hv), Steps(Qx86(hv), t, l).st)
        {
          StepsCompose(Qx86(hv), s, k, l);
          SoundInstructionIsSoundAt(hv, Steps(Qx86(hv), s, k + l).st);
        }
        LowChain(Qx86(hv), t, i);
        StepsCompose(Qx86(hv), s, k, i);
        LowIsFresh(t, Steps(Qx86(hv), t, i).st);
      }
    }
  }

  lemma LowIsFresh(s0: State, s: State)
    requires Frozen(s0, s) && !InWriteable(s.cpu.eip) && SoundInstruction(s, s.cpu.eip)
    ensures StillFresh(s0, s)
  {
    hide DecodeAt, RepFunction, SaneTable, Frozen;
    OpcodeTableIsSane();
    DecodesFrozen(OPCODES, s0, s, s.cpu.eip, DEFAULT_SLOT);
  }

  /** For two pipeline lengths, on a run that is fresh for both, `execute` halts
      with one exactly when it halts with the other, in the same state down to
      the gas; likewise when it runs out of gas; and it fails otherwise with one
      exactly when it does with the other. */
  lemma PipelineSizeDoesNotMatter(hv: Hypervisor, s: State, n: nat, n': nat)
    requires RespectsFrozen(hv) && FreshRun(hv, s, n) && FreshRun(hv, s, n') && n >= 1 && n' >= 1
    ensures forall f :: Executes(Qx86(hv), n, s, Halted(f)) <==> Executes(Qx86(hv), n', s, Halted(f))
    ensures forall f :: Executes(Qx86(hv), n, s, Failed(f, OutOfGas)) <==> Executes(Qx86(hv), n', s, Failed(f, OutOfGas))
    ensures (exists r :: Breaks(r) && Executes(Qx86(hv), n, s, r))
       <==> (exists r :: Breaks(r) && Executes(Qx86(hv), n', s, r))
  {
    hide Conforms, SoundProgram, FreshRun, Executes;
    FreshRunIsSound(hv, s, n);
    FreshRunIsSound(hv, s, n');
    PipelineLengthIndependence(Qx86(hv), n, n', s);
  }

  /** One cycle of the x86 machine is k steps of one-at-a-time execution, or both
      break at a rep before an opcode that is no string opcode. */
  lemma CycleRefinesSteps(hv: Hypervisor, prev: seq<Slot>, s: State)
    requires RespectsFrozen(hv) && FreshCycle(hv, s, |prev|) && prev != []
    ensures var filled := Fill(Qx86(hv), s, prev);
            filled.Ok? ==>
              (exists k :: 1 <= k <= |prev| &&
                (Cycle(Qx86(hv), prev, s) == Steps(Qx86(hv), s, k)
                 || (Breaks(Cycle(Qx86(hv), prev, s)) && Breaks(Steps(Qx86(hv), s, k))
                     && exists p :: p in filled.value && p.op == Repe && !StringOpcode(p.opcode))))
  {
    hide Conforms, SoundFrom, FreshCycle, Cycle, Steps, Fill, StringOpcode, LooksAtArgs, Qx86, Breaks;
    Qx86Conforms(hv);
    FreshCycleIsSound(hv, s, |prev|);
    CycleIsSteps(Qx86(hv), prev, s);
    var filled := Fill(Qx86(hv), s, prev);
    if filled.Ok? && LooksAtArgs(Qx86(hv), filled.value) {
      OddRep(hv, filled.value);
    }
  }

  lemma OddRep(hv: Hypervisor, slots: seq<Slot>)
    requires LooksAtArgs(Qx86(hv), slots)
    ensures exists p :: p in slots && p.op == Repe && !StringOpcode(p.opcode)
  {
    hide IgnoresArgs, StringOpcode, DecodeAt, Exec;
    var i :| 0 <= i < |slots| && IsRep(slots[i]) && !IgnoresArgs(Qx86(hv), slots[i]);
    if slots[i].op == Repne || StringOpcode(slots[i].opcode) {
      RepSlotsIgnoreArgs(OPCODES, hv, slots[i]);
    }
    assert slots[i] in slots;
  }

  /** Before each filled slot runs, eip is where the slot was decoded and the gas
      left is what the decoder had counted; only the last decoded slot can end
      the gas; and if its charge fails, the cycle ends there with every earlier
      slot run, no gas, and nothing else done. */
  lemma GasIsCountedAlike(hv: Hypervisor, prev: seq<Slot>, s: State, i: nat)
    requires Fill(Qx86(hv), s, prev).Ok? && i < |prev|
    ensures var slots, trace := Fill(Qx86(hv), s, prev).value, CycleTrace(Qx86(hv), s, prev);
            var here := RunSlots(Qx86(hv), slots[..i], s);
            here.Continue? && i < |trace| ==>
              && (here.st.cpu.eip, here.st.gas) == trace[i]
              && (OutOfGasAt(RunSlot(Qx86(hv), slots[i], here.st)) ==> i + 1 == |trace|)
              && (here.st.gas < slots[i].gasCost ==>
                    Cycle(Qx86(hv), prev, s) == Failed(here.st.(gas := 0), OutOfGas))
  {
    hide Fill, CycleTrace, Qx86, FollowsPredictions, StopsInWriteable, RunSlots, RunSlot;
    MachinePredicts(OPCODES, hv) by { OpcodeTableIsSane(); }
    assert FollowsPredictions(Qx86(hv)) && StopsInWriteable(Qx86(hv)) by { QIsMachine(hv); }
    GasCoherence(Qx86(hv), prev, s, i);
  }

  lemma QIsMachine(hv: Hypervisor)
    ensures Qx86(hv) == MachineOf(OPCODES, hv)
  {
  }

  /** Although only cell 0 is cleared, what the array held before does not show in
      the function, size or gas of any cell, nor in anything of a decoded cell
      that has no rep prefix. */
  lemma FillDoesNotRemember(hv: Hypervisor, s: State, a: seq<Slot>, b: seq<Slot>)
    requires |a| == |b|
    ensures CycleTrace(Qx86(hv), s, a) == CycleTrace(Qx86(hv), s, b)
    ensures SameResult(Fill(Qx86(hv), s, a), Fill(Qx86(hv), s, b), |CycleTrace(Qx86(hv), s, a)|)
  {
    hide Fill, CycleTrace, Alike, DecodeAt, Exec;
    assert ForgetsHistory(Qx86(hv)) by {
      forall s: State, eip: u32, w: bool, p: Slot, q: Slot
        ensures Alike(DecodeAt(OPCODES, s, eip, w, p), DecodeAt(OPCODES, s, eip, w, q))
      {
        FillHistoryIndependence(OPCODES, s, eip, w, p, q);
      }
    }
    FillForgets(Qx86(hv), s, a, b);
  }

  /** No run changes a byte below 0x80000000, which blocks exist, or their lengths. */
  lemma ReadOnlyMemoryIsSafe(hv: Hypervisor, prev: seq<Slot>, s: State, n: nat)
    requires RespectsFrozen(hv)
    ensures Frozen(s, Cycles(Qx86(hv), prev, s, n).st)
  {
    hide Frozen, Cycles;
    MachineKeepsFrozen(OPCODES, hv);
    CyclesKeepReadOnlyMemory(Qx86(hv), prev, s, n);
  }
}

// Execution comes to an end when every instruction that does something costs something.

module Termination {
  import opened Words
  import opened Errors
  import opened Structs
  import opened Memory
  import opened VMState
  import opened Opcodes
  import opened Decoding
  import opened Fetch
  import opened Pipeline
  import opened Refinement
  import opened Ops
  import opened X86

  /** What an instruction of tier i is charged: its tier, and the surcharges for a
      Mod R/M byte, a branch, n memory operands and code in writable memory. */
  function ChargeSum(costs: Costs, i: nat, modrm: bool, branch: bool, n: nat, writeable: bool): int
    requires i < 9
  {
    (if modrm then Cost(costs, ModRMSurcharge) as int else 0) + costs[i]
    + (if branch then Cost(costs, ConditionalBranch) as int else 0)
    + (if n > 0 then Cost(costs, MemoryAccess) as int else 0)
    + (if n > 1 then Cost(costs, MemoryAccess) as int else 0)
    + (if n > 2 then Cost(costs, MemoryAccess) as int else 0)
    + WriteableGas(costs, writeable)
  }

  /** Every instruction of the tiers from VeryLow to High costs something: the
      tiers are not 0, and no charge wraps around to 0. */
  predicate Charges(costs: Costs) {
    forall i, modrm, branch, n, writeable :: 1 <= i <= 4 && 0 <= n <= 3 ==>
      Wrap64(ChargeSum(costs, i, modrm, branch, n, writeable)) > 0
  }

  /** The documented, unenforced limit on blocks. */
  ghost predicate BlocksFit(m: Mem) {
    forall k :: k in m ==> |m[k]| <= 0x1_0000
  }

  ghost predicate NeverRefunds(hv: Hypervisor) {
    forall s: State, n: u8 :: Left(hv(s, n)).gas <= s.gas
  }

  ghost predicate Bounded(s: State) {
    Charges(s.costs) && BlocksFit(s.cpu.mem)
  }

  lemma BoundedStays(s: State, t: State)
    requires Bounded(s) && Frozen(s, t)
    ensures Bounded(t)
  {
  }

  /** Room for free instructions before the end of the block, and gas for the others. */
  function Measure(s: State): nat {
    s.gas * 65522 + if Local(s.cpu.eip) > 65521 then 0 else 65521 - Local(s.cpu.eip)
  }

  lemma {:induction false} RepLoopGas(hv: Hypervisor, p: Slot, s: State, c: u64, until: bool)
    requires NeverRefunds(hv)
    ensures Left(RepLoop(hv, p, s, c, until)).gas <= s.gas
    decreases RepCount(s.cpu, p.sizeOverride)
  {
    hide RepFunction, RepCount, StringOpcode, RepFlagOpcode, ExecOnce, Decremented;
    if RepCount(s.cpu, p.sizeOverride) != 0 && s.gas != 0 {
      OnceGas(hv, RepFunction(p), p, s);
      var t := RepTurn(hv, p, s, c);
      if t.Done? && StringOpcode(p.opcode) {
        RepTurnCounts(hv, p, s, c);
        RepLoopGas(hv, p, t.value, c, until);
      }
    }
  }

  lemma OnceGas(hv: Hypervisor, op: Op, p: Slot, s: State)
    requires NeverRefunds(hv) && !op.Repe? && !op.Repne?
    ensures Left(ExecOnce(hv, op, p, s)).gas <= s.gas
  {
    hide CpuOp, GetArg;
  }

  lemma ExecGas(hv: Hypervisor, p: Slot, s: State)
    requires NeverRefunds(hv)
    ensures Left(Exec(hv, p, s)).gas <= s.gas
  {
    hide ExecOnce, RepLoop, RepGas;
    RepLoopGas(hv, p, s, RepGas(s.costs, p), false);
    RepLoopGas(hv, p, s, RepGas(s.costs, p), true);
    if !IsRep(p) {
      OnceGas(hv, p.op, p, s);
    }
  }

  // ---------- what costs nothing ----------

  lemma NoArgsNoBytes(o: Opcode, stream: seq<u8>, args: Args, sizeOverride: bool)
    requires TakesNoArgs(o) && DecodeArgs(o, stream, args, sizeOverride, None).Ok?
    ensures DecodeArgs(o, stream, args, sizeOverride, None).value.1 == 1 && |stream| >= 6
  {
    NoArgsFrom(o, 0, stream[0], stream[1..], 1, args, sizeOverride, DEFAULT_MODRM);
  }

  lemma {:induction false} NoArgsFrom(o: Opcode, n: nat, opcode: u8, bytes: seq<u8>, size: nat, args: Args,
                                      sizeOverride: bool, m: ParsedModRM)
    requires n <= 3 && TakesNoArgs(o)
    ensures var r := DecodeArgsFrom(o, n, opcode, bytes, size, args, sizeOverride, m); r.Ok? && r.value.1 == size
    decreases 3 - n
  {
    if n < 3 {
      assert o.source[n] == SourceNone;
      NoArgsFrom(o, n + 1, opcode, bytes[0..], size, args[n := NO_ARGUMENT], sizeOverride, m);
    }
  }

  /** An instruction either costs something, or stops the machine, or is a
      no-op of at most 11 bytes. */
  lemma FreeOrPaid(table: Table, s: State, eip: u32, w: bool)
    requires SaneTable(table) && Charges(s.costs)
    requires DecodeAt(table, s, eip, w, DEFAULT_SLOT).Ok?
    ensures var p := DecodeAt(table, s, eip, w, DEFAULT_SLOT).value.slot;
            p.gasCost >= 1 || p.op.Hlt? || p.op.Undefined? || (p.op.Nop? && 1 <= p.eipSize <= 11)
  {
    hide SaneTable, ReadFields, ScanPrefixes, FieldsGas, GetArg, Charges, Wrap64;
    var window := Read(s.cpu.mem, eip, 16).value;
    var (q, size) := ScanPrefixes(NO_PREFIXES, window, 0).value;
    if q.rep != NoRep {
      PaidRep(s.costs, w);
    } else {
      var buffer := window[size..];
      FieldsAreSane(table, q, size, buffer, NO_ARGS);
      var f := ReadFields(table, q, size, buffer, NO_ARGS).value;
      if f.o.gas == TierNone {
        FreeNopIsShort(table, q, size, buffer);
      } else {
        PaidGas(s.costs, f, w);
      }
    }
  }

  function Tier(gas: GasTier): nat {
    match gas
    case VeryLow => 1
    case Low => 2
    case Moderate => 3
    case High => 4
    case _ => 0
  }

  function MemoryOperands(args: Args): nat {
    (if args[0].isMemory then 1 else 0) + (if args[1].isMemory then 1 else 0) + (if args[2].isMemory then 1 else 0)
  }

  lemma GasIsChargeSum(costs: Costs, f: Fields, w: bool)
    requires Tier(f.o.gas) > 0
    ensures FieldsGas(costs, f, w) ==
              Wrap64(ChargeSum(costs, Tier(f.o.gas), f.hasModRM, f.o.behavior == Unpredictable, MemoryOperands(f.args), w))
  {
    hide Wrap64;
  }

  lemma PaidGas(costs: Costs, f: Fields, w: bool)
    requires Charges(costs) && Sane(f.o, f.hasModRM) && f.o.gas != TierNone
    ensures FieldsGas(costs, f, w) >= 1
  {
    hide ChargeSum, FieldsGas;
    GasIsChargeSum(costs, f, w);
  }

  lemma PaidRep(costs: Costs, w: bool)
    requires Charges(costs)
    ensures Wrap64(Cost(costs, Moderate) as int + WriteableGas(costs, w)) >= 1
  {
    hide Wrap64;
    assert ChargeSum(costs, 3, false, false, 0, w) == Cost(costs, Moderate) as int + WriteableGas(costs, w);
    hide ChargeSum;
  }

  lemma FreeNopIsShort(table: Table, q: Prefixes, size: nat, buffer: seq<u8>)
    requires buffer != [] && size + |buffer| == 16 && ReadFields(table, q, size, buffer, NO_ARGS).Ok?
    ensures var f := ReadFields(table, q, size, buffer, NO_ARGS).value;
            TakesNoArgs(f.o) && !f.hasModRM ==> 1 <= f.size <= 11
  {
    hide DecodeArgs, FromBytes;
    var f := ReadFields(table, q, size, buffer, NO_ARGS).value;
    if TakesNoArgs(f.o) && !f.hasModRM {
      NoArgsNoBytes(f.o, buffer, NO_ARGS, q.sizeOverride);
    }
  }

  // ---------- the bound ----------

  /** Every step that goes on comes closer to the end. */
  lemma StepComesCloser(table: Table, hv: Hypervisor, s: State)
    requires SaneTable(table) && NeverRefunds(hv) && Bounded(s)
    requires Step(MachineOf(table, hv), s).Continue?
    ensures Measure(Step(MachineOf(table, hv), s).st) < Measure(s)
  {
    hide Exec, DecodeAt, SaneTable, Charges, Measure;
    var eip, w := s.cpu.eip, InWriteable(s.cpu.eip);
    var p := DecodeAt(table, s, eip, w, DEFAULT_SLOT).value.slot;
    var t := Step(MachineOf(table, hv), s).st;
    var charged := s.(gas := SatSub(s.gas, p.gasCost));
    FreeOrPaid(table, s, eip, w);
    ExecGas(hv, p, charged);
    if p.gasCost >= 1 {
      PaidMeasure(s, t);
    } else {
      FreeExec(hv, p, charged);
      RoomInBlock(table, s, eip, w);
      FreeMeasure(s, t, p.eipSize);
    }
  }

  lemma FreeMeasure(s: State, t: State, size: u8)
    requires t.cpu.eip == Wrap32(s.cpu.eip + size) && t.gas == s.gas && 1 <= size <= 11 && Local(s.cpu.eip) <= 65520
    ensures Measure(t) < Measure(s)
  {
  }

  lemma PaidMeasure(s: State, t: State)
    requires t.gas < s.gas
    ensures Measure(t) < Measure(s)
  {
  }

  lemma FreeExec(hv: Hypervisor, p: Slot, s: State)
    requires p.op.Hlt? || p.op.Undefined? || p.op.Nop?
    ensures var e := Exec(hv, p, s); if p.op.Nop? then e == Done(s) else e.Raised?
  {
    hide RepLoop, RepGas;
  }

  /** An instruction can only be fetched where 16 bytes of its block are left. */
  lemma RoomInBlock(table: Table, s: State, eip: u32, w: bool)
    requires BlocksFit(s.cpu.mem) && DecodeAt(table, s, eip, w, DEFAULT_SLOT).Ok?
    ensures Local(eip) <= 65520
  {
    hide DecodeWindow;
    assert Read(s.cpu.mem, eip, 16).Ok?;
  }

  lemma {:induction false} StepsComeCloser(table: Table, hv: Hypervisor, s: State, k: nat)
    requires SaneTable(table) && NeverRefunds(hv) && RespectsFrozen(hv) && Bounded(s)
    requires Steps(MachineOf(table, hv), s, k).Continue?
    ensures Measure(Steps(MachineOf(table, hv), s, k).st) + k <= Measure(s)
    decreases k
  {
    hide Step, Measure, Bounded, SaneTable, RespectsFrozen, NeverRefunds;
    var m := MachineOf(table, hv);
    if k > 0 {
      var t := Step(m, s).st;
      StepComesCloser(table, hv, s);
      assert Frozen(s, t) by { MachineKeepsFrozen(table, hv); StepFrozen(m, s); }
      BoundedStays(s, t);
      StepsComeCloser(table, hv, t, k - 1);
    }
  }

  /** With gas g, one-at-a-time execution is over after (g + 1) * 65522 instructions. */
  lemma StepsEnd(table: Table, hv: Hypervisor, s: State)
    requires SaneTable(table) && NeverRefunds(hv) && RespectsFrozen(hv) && Bounded(s)
    ensures !Steps(MachineOf(table, hv), s, (s.gas + 1) * 65522).Continue?
  {
    hide Steps, Bounded;
    if Steps(MachineOf(table, hv), s, (s.gas + 1) * 65522).Continue? {
      StepsComeCloser(table, hv, s, (s.gas + 1) * 65522);
    }
  }

  // ---------- the pipeline ends too, sound or not ----------

  /** A filled slot that goes on comes closer to the end, whatever its cell held
      and whatever has happened since it was decoded. */
  lemma SlotComesCloser(table: Table, hv: Hypervisor, s0: State, s: State, w: bool, prev: Slot)
    requires SaneTable(table) && NeverRefunds(hv) && Bounded(s0)
    requires DecodeAt(table, s0, s.cpu.eip, w, prev).Ok?
    requires RunSlot(MachineOf(table, hv), DecodeAt(table, s0, s.cpu.eip, w, prev).value.slot, s).Continue?
    ensures Measure(RunSlot(MachineOf(table, hv), DecodeAt(table, s0, s.cpu.eip, w, prev).value.slot, s).st) < Measure(s)
  {
    hide Exec, DecodeAt, SaneTable, Charges, Measure, NeverRefunds;
    var eip := s.cpu.eip;
    var p := DecodeAt(table, s0, eip, w, prev).value.slot;
    FillHistoryIndependence(table, s0, eip, w, prev, DEFAULT_SLOT);
    FreeOrPaid(table, s0, eip, w);
    var t := RunSlot(MachineOf(table, hv), p, s).st;
    var charged := s.(gas := SatSub(s.gas, p.gasCost));
    ExecGas(hv, p, charged);
    if p.gasCost >= 1 {
      PaidMeasure(s, t);
    } else {
      FreeExec(hv, p, charged);
      RoomInBlock(table, s0, eip, w);
      FreeMeasure(s, t, p.eipSize);
    }
  }

  /** How many of some slots a run of them begins. */
  function Begun(m: Machine, slots: seq<Slot>, s: State): nat
    decreases slots
  {
    if slots == [] then 0
    else
      var r := RunSlot(m, slots[0], s);
      if r.Continue? then 1 + Begun(m, slots[1..], r.st) else 1
  }

  lemma BegunOne(m: Machine, p: Slot, s: State)
    ensures Begun(m, [p], s) == 1
  {
    assert forall t :: Begun(m, [p][1..], t) == 0;
  }

  /** A run of filled slots comes one closer with every decoded slot; the slot it
      ends at, if it does, is one more. */
  lemma {:induction false} FilledComeCloser(table: Table, hv: Hypervisor, s0: State, s: State, gas: u64, w: bool, prev: seq<Slot>)
    requires SaneTable(table) && NeverRefunds(hv) && Bounded(s0) && prev != []
    requires FillFrom(MachineOf(table, hv), s0, s.cpu.eip, gas, false, w, prev).Ok?
    ensures var m := MachineOf(table, hv);
            var filled := FillFrom(m, s0, s.cpu.eip, gas, false, w, prev).value;
            var k := |FillTrace(m, s0, s.cpu.eip, gas, false, w, prev)|;
            var r := RunSlots(m, filled, s);
            && 1 <= k <= |filled| && Begun(m, filled[..k], s) <= Measure(s) + 1
            && (r.Continue? ==> Begun(m, filled[..k], s) == k && Measure(r.st) + k <= Measure(s))
    decreases prev
  {
    hide DecodeAt, Exec, SaneTable, NeverRefunds, Bounded, Measure, RunSlot, AsPredicted;
    var m := MachineOf(table, hv);
    var d := DecodeAt(table, s0, s.cpu.eip, w, prev[0]).value;
    var left := SatSub(gas, d.slot.gasCost);
    var stops := d.stop || left == 0;
    var rest := FillFrom(m, s0, d.next, left, stops, w, prev[1..]).value;
    var k := |FillTrace(m, s0, d.next, left, stops, w, prev[1..])|;
    assert ([d.slot] + rest)[1..] == rest;
    TraceLength(m, s0, d.next, left, stops, w, prev[1..]);
    assert ([d.slot] + rest)[..k + 1][1..] == rest[..k];
    var r := RunSlot(m, d.slot, s);
    if stops || prev[1..] == [] {
      assert ([d.slot] + rest)[..1] == [d.slot];
      BegunOne(m, d.slot, s);
      StoppedFill(m, s0, d.next, left, w, prev[1..], r.st) by { NopsOfMachine(table, hv); }
      if r.Continue? { SlotComesCloser(table, hv, s0, s, w, prev[0]); }
    } else if r.Continue? {
      SlotComesCloser(table, hv, s0, s, w, prev[0]);
      var charged := s.(gas := SatSub(s.gas, d.slot.gasCost));
      assert AsPredicted(d, charged, Exec(hv, d.slot, charged)) by {
        MachinePredicts(table, hv);
        Predicted(m, s0, s, w, prev[0], SatSub(s.gas, d.slot.gasCost));
      }
      ReadPast(m, d, s);
      FilledComeCloser(table, hv, s0, r.st, left, w, prev[1..]);
    }
  }

  lemma NopsOfMachine(table: Table, hv: Hypervisor)
    ensures NopsDoNothing(MachineOf(table, hv))
  {
    hide Exec;
    forall p: Slot, s: State | p.op == Nop ensures Exec(hv, p, s) == Done(s) {
      NopRuns(hv, p, s);
    }
  }

  /** How many instructions a cycle begins: those of its cells that were decoded. */
  ghost function CycleBegins(m: Machine, prev: seq<Slot>, s: State): nat {
    match Fill(m, s, prev)
    case Err(_) => 0
    case Ok(slots) => Begun(m, slots[..DecodedCells(m, s, prev)], s)
  }

  ghost function DecodedCells(m: Machine, s: State, prev: seq<Slot>): (k: nat)
    ensures k <= |prev|
  {
    TraceLength(m, s, s.cpu.eip, s.gas, false, InWriteable(s.cpu.eip), Cleared(prev));
    |CycleTrace(m, s, prev)|
  }

  /** How many instructions c cycles begin. */
  ghost function CyclesBegin(m: Machine, prev: seq<Slot>, s: State, c: nat): nat
    decreases c
  {
    if c == 0 then 0
    else
      var r := Cycle(m, prev, s);
      CycleBegins(m, prev, s) + if r.Continue? then CyclesBegin(m, Fill(m, s, prev).value, r.st, c - 1) else 0
  }

  lemma CycleComesCloser(table: Table, hv: Hypervisor, prev: seq<Slot>, s: State)
    requires SaneTable(table) && NeverRefunds(hv) && RespectsFrozen(hv) && Bounded(s) && prev != []
    ensures var m := MachineOf(table, hv);
            var r := Cycle(m, prev, s);
            && CycleBegins(m, prev, s) <= Measure(s) + 1
            && (r.Continue? ==> 1 <= CycleBegins(m, prev, s) && Measure(r.st) + CycleBegins(m, prev, s) <= Measure(s) && Bounded(r.st))
  {
    hide FillFrom, FillTrace, RunSlots, Begun, Measure, Bounded, SaneTable, RespectsFrozen, NeverRefunds;
    var m := MachineOf(table, hv);
    var filled := Fill(m, s, prev);
    if filled.Ok? {
      FilledComeCloser(table, hv, s, s, s.gas, InWriteable(s.cpu.eip), Cleared(prev));
      assert Frozen(s, Cycle(m, prev, s).st) by { MachineKeepsFrozen(table, hv); RunSlotsFrozen(m, filled.value, s); }
      BoundedStays(s, Cycle(m, prev, s).st);
    }
  }

  lemma {:induction false} CyclesComeCloser(table: Table, hv: Hypervisor, prev: seq<Slot>, s: State, c: nat)
    requires SaneTable(table) && NeverRefunds(hv) && RespectsFrozen(hv) && Bounded(s) && prev != []
    ensures var m := MachineOf(table, hv);
            var r := Cycles(m, prev, s, c);
            && CyclesBegin(m, prev, s, c) <= Measure(s) + 1
            && (r.Continue? ==> c <= CyclesBegin(m, prev, s, c) && Measure(r.st) + CyclesBegin(m, prev, s, c) <= Measure(s))
    decreases c
  {
    hide FillFrom, RunSlots, CycleBegins, Measure, Bounded, SaneTable, RespectsFrozen, NeverRefunds;
    var m := MachineOf(table, hv);
    if c > 0 {
      CycleComesCloser(table, hv, prev, s);
      var r := Cycle(m, prev, s);
      if r.Continue? {
        CyclesComeCloser(table, hv, Fill(m, s, prev).value, r.st, c - 1);
      }
    }
  }

  /** With gas g, `execute` with a pipeline of any length begins at most
      (g + 1) * 65522 instructions, however long it goes on, and is over after as
      many cycles, whatever the program does. */
  lemma CyclesEnd(table: Table, hv: Hypervisor, n: nat, s: State)
    requires SaneTable(table) && NeverRefunds(hv) && RespectsFrozen(hv) && Bounded(s) && n >= 1
    ensures forall c :: CyclesBegin(MachineOf(table, hv), NewPipeline(n), s, c) <= (s.gas + 1) * 65522
    ensures !Cycles(MachineOf(table, hv), NewPipeline(n), s, (s.gas + 1) * 65522).Continue?
  {
    hide Cycles, CyclesBegin, Bounded;
    forall c ensures CyclesBegin(MachineOf(table, hv), NewPipeline(n), s, c) <= (s.gas + 1) * 65522 {
      CyclesComeCloser(table, hv, NewPipeline(n), s, c);
    }
    CyclesComeCloser(table, hv, NewPipeline(n), s, (s.gas + 1) * 65522);
  }
}

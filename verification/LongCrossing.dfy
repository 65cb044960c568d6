// A cycle that reads on into writable memory as far as it likes: it agrees with
// one-at-a-time execution if and only if it runs nothing there or the surcharge is free.

module LongCrossing {
  import opened Words
  import opened Errors
  import opened VMState
  import opened Opcodes
  import opened Fetch
  import opened Pipeline
  import opened Refinement
  import opened Runs
  import opened Gas
  import opened Ops
  import opened X86
  import opened X86Gas
  import opened Programs
  import opened Crossing
  import opened Termination
  import opened Fuel

  /** What the decoder reads in `s0` for the instruction `s` is at has not been
      overwritten since; it is neither a rep nor an interrupt, and its charge does
      not wrap around. */
  predicate Kept(s0: State, s: State) {
    var d := DecodeAt(OPCODES, s0, s.cpu.eip, false, DEFAULT_SLOT);
    && (InWriteable(s.cpu.eip) ==> DecodeAt(OPCODES, s, s.cpu.eip, false, DEFAULT_SLOT) == d)
    && (d.Ok? ==>
          && (OnCpu(d.value.slot.op) || d.value.slot.op.Hlt?)
          && d.value.slot.gasCost + Surcharge(s0) < 0x1_0000_0000_0000_0000)
  }

  /** All that can be read ahead in `s0` into n cells is kept until the reference,
      from `s` on, gets there. */
  ghost predicate KeptFrom(hv: Hypervisor, s0: State, s: State, n: nat) {
    forall i: nat :: i < n && Steps(Qx86(hv), s, i).Continue? && ReadsAhead(Qx86(hv), s0, s, i) ==>
      Kept(s0, Steps(Qx86(hv), s, i).st)
  }

  /** A run of these slots begins one in writable memory. */
  predicate RunsThere(m: Machine, slots: seq<Slot>, s: State)
    decreases slots
  {
    slots != []
    && (InWriteable(s.cpu.eip)
        || (var r := RunSlot(m, slots[0], s); r.Continue? && RunsThere(m, slots[1..], r.st)))
  }

  lemma KeptNow(hv: Hypervisor, s0: State, s: State, n: nat)
    requires KeptFrom(hv, s0, s, n) && n > 0
    ensures Kept(s0, s)
  {
    hide Kept;
    assert Steps(Qx86(hv), s, 0) == Continue(s);
    assert ReadsAhead(Qx86(hv), s0, s, 0);
  }

  lemma KeptAfterStep(hv: Hypervisor, s0: State, s: State, n: nat)
    requires KeptFrom(hv, s0, s, n + 1) && ReadsPast(Qx86(hv), s0, s) && Step(Qx86(hv), s).Continue?
    ensures KeptFrom(hv, s0, Step(Qx86(hv), s).st, n)
  {
    hide Kept, ReadsPast, ReadsAhead, Step, Qx86;
    var m := Qx86(hv);
    var t := Step(m, s).st;
    forall i: nat | i < n && Steps(m, t, i).Continue? && ReadsAhead(m, s0, t, i)
      ensures Kept(s0, Steps(m, t, i).st)
    {
      FirstStep(m, s, i);
      ReadsAheadAfterStep(m, s0, s, i);
    }
  }

  // ---------- one instruction ----------

  /** What the instruction at `s` costs more than it was counted for. */
  function Extra(s: State): u64 {
    if InWriteable(s.cpu.eip) then Surcharge(s) else 0
  }

  /** A kept instruction is fetched as it was decoded, but for its price. */
  lemma KeptIsFetched(hv: Hypervisor, s0: State, s: State, p: Slot)
    requires Frozen(s0, s) && Kept(s0, s)
    requires DecodeAt(OPCODES, s0, s.cpu.eip, false, p).Ok?
    ensures var d := DecodeAt(OPCODES, s0, s.cpu.eip, false, p).value;
            && DecodeAt(OPCODES, s0, s.cpu.eip, false, DEFAULT_SLOT) == Ok(d)
            && (OnCpu(d.slot.op) || d.slot.op.Hlt?) && d.slot.gasCost + Extra(s) < 0x1_0000_0000_0000_0000
            && Step(Qx86(hv), s) == RunSlot(Qx86(hv), d.slot.(gasCost := d.slot.gasCost + Extra(s)), s)
  {
    hide DecodeAt, Exec, RunSlot, SaneTable;
    OpcodeTableIsSane();
    FillHistoryIndependence(OPCODES, s0, s.cpu.eip, false, p, DEFAULT_SLOT);
    if InWriteable(s.cpu.eip) {
      SurchargeOnly(OPCODES, s, s.cpu.eip);
    } else {
      DecodesFrozen(OPCODES, s0, s, s.cpu.eip, DEFAULT_SLOT);
    }
  }

  /** The same outcome with so much less gas. */
  predicate Lags(r: Outcome, q: Outcome, less: nat) {
    less <= r.st.gas && q == SameEndWith(r, r.st.gas - less)
  }

  predicate IsArithmetic(op: Op) {
    op.Alu? || op.Rcl? || op.Rcr? || op.Mul? || op.Div?
  }

  predicate IsJump(op: Op) {
    op.JumpRelative? || op.JumpAbsolute? || op.JumpIf? || op.JumpIfEcxZero? || op.CallRelative? || op.CallAbsolute? || op.Ret?
  }

  lemma ArithmeticPrice(c: Cpu, op: Op, p: Slot, q: Slot)
    requires IsArithmetic(op) && q == p.(gasCost := q.gasCost)
    ensures CpuOp(c, op, q) == CpuOp(c, op, p)
  {
    hide GetArg, SetArg;
  }

  lemma PlainJumpPrice(c: Cpu, p: Slot, q: Slot)
    requires q == p.(gasCost := q.gasCost)
    ensures JumpRelativeOp(c, q) == JumpRelativeOp(c, p) && JumpAbsoluteOp(c, q) == JumpAbsoluteOp(c, p)
    ensures PushReturn(c, q) == PushReturn(c, p)
  {
    hide GetArg, Push, JumpBase;
  }

  lemma RetPrice(c: Cpu, p: Slot, q: Slot)
    requires q == p.(gasCost := q.gasCost)
    ensures RetOp(c, q) == RetOp(c, p)
  {
    hide GetArg, Pop;
  }

  lemma CallPrice(c: Cpu, p: Slot, q: Slot)
    requires q == p.(gasCost := q.gasCost)
    ensures CallRelativeOp(c, q) == CallRelativeOp(c, p) && CallAbsoluteOp(c, q) == CallAbsoluteOp(c, p)
  {
    hide JumpRelativeOp, JumpAbsoluteOp, PushReturn;
    PlainJumpPrice(c, p, q);
    var t := PushReturn(c, p);
    if t.Done? { PlainJumpPrice(t.value, p, q); }
  }

  lemma JumpPrice(c: Cpu, op: Op, p: Slot, q: Slot)
    requires IsJump(op) && q == p.(gasCost := q.gasCost)
    ensures CpuOp(c, op, q) == CpuOp(c, op, p)
  {
    PlainJumpPrice(c, p, q);
    CallPrice(c, p, q);
    RetPrice(c, p, q);
    hide JumpRelativeOp, JumpAbsoluteOp, CallRelativeOp, CallAbsoluteOp, RetOp;
  }

  lemma OtherPrice(c: Cpu, op: Op, p: Slot, q: Slot)
    requires OnCpu(op) && !IsArithmetic(op) && !IsJump(op) && q == p.(gasCost := q.gasCost)
    ensures CpuOp(c, op, q) == CpuOp(c, op, p)
  {
    hide GetArg, SetArg, GetArgLea, Push, Pop, StringOp, PushAllOp, PopAllOp, DaaOp, PopFlagsOp;
  }

  /** What an instruction does on the cpu does not depend on its price. */
  lemma PriceDoesNotShow(c: Cpu, op: Op, p: Slot, price: u64)
    requires OnCpu(op)
    ensures CpuOp(c, op, p.(gasCost := price)) == CpuOp(c, op, p)
  {
    hide CpuOp;
    var q := p.(gasCost := price);
    if IsArithmetic(op) {
      ArithmeticPrice(c, op, p, q);
    } else if IsJump(op) {
      JumpPrice(c, op, p, q);
    } else {
      OtherPrice(c, op, p, q);
    }
  }

  /** What one-at-a-time execution, which started `less` behind in gas, makes of a
      run that did not end for want of gas: it runs out, or does the same and is
      further behind exactly if something was dearer. */
  predicate FallsBehind(r: Outcome, q: Outcome, less: nat, dearer: bool) {
    if OutOfGasOutcome(q) then less > 0 || dearer
    else
      && q.st.gas <= r.st.gas && q == SameEndWith(r, q.st.gas)
      && (if dearer then r.st.gas - q.st.gas > less else r.st.gas - q.st.gas == less)
  }

  /** The same instruction with less gas and at a higher price. */
  lemma DearerSlot(hv: Hypervisor, p: Slot, s: State, less: nat, extra: u64)
    requires OnCpu(p.op) || p.op.Hlt?
    requires less <= s.gas && p.gasCost + extra < 0x1_0000_0000_0000_0000 && s.gas >= p.gasCost
    ensures var r := RunSlot(Qx86(hv), p, s);
            var q := RunSlot(Qx86(hv), p.(gasCost := p.gasCost + extra), s.(gas := s.gas - less));
            && !OutOfGasOutcome(r)
            && (if OutOfGasOutcome(q) then less + extra > 0 else Lags(r, q, less + extra))
  {
    hide CpuOp, RepLoop, RepGas, DecodeAt;
    if OnCpu(p.op) {
      CpuOpsHarmless(s.cpu, p.op, p);
      PriceDoesNotShow(s.cpu, p.op, p, p.gasCost + extra);
    }
  }

  lemma ReadPastHere(hv: Hypervisor, s0: State, s: State, p: Slot)
    requires var d := DecodeAt(OPCODES, s0, s.cpu.eip, false, p); d.Ok? && !d.value.stop
    ensures var d := DecodeAt(OPCODES, s0, s.cpu.eip, false, p).value;
            var r := RunSlot(Qx86(hv), d.slot, s);
            r.Continue? ==> r.st.cpu.eip == d.next && r.st.gas == SatSub(s.gas, d.slot.gasCost)
  {
    hide DecodeAt, Exec, SaneTable, FollowsPredictions, StopsInWriteable, AsPredicted, RunSlot;
    var d := DecodeAt(OPCODES, s0, s.cpu.eip, false, p).value;
    MachinePredicts(OPCODES, hv) by { OpcodeTableIsSane(); }
    Predicted(Qx86(hv), s0, s, false, p, SatSub(s.gas, d.slot.gasCost));
    ReadPast(Qx86(hv), d, s);
  }

  // ---------- a run of decoded cells ----------

  lemma FurtherBehind(r: Outcome, q: Outcome, less: nat, extra: nat, later: bool)
    requires FallsBehind(r, q, less + extra, later)
    ensures FallsBehind(r, q, less, extra > 0 || later)
  {
  }

  /** The first of some decoded cells, and what one-at-a-time execution does there. */
  lemma DearerFirst(hv: Hypervisor, s0: State, s: State, less: nat, p: Slot)
    requires RespectsFrozen(hv) && less <= s.gas && Frozen(s0, s.(gas := s.gas - less)) && Kept(s0, s.(gas := s.gas - less))
    requires DecodeAt(OPCODES, s0, s.cpu.eip, false, p).Ok?
    requires s.gas >= DecodeAt(OPCODES, s0, s.cpu.eip, false, p).value.slot.gasCost
    ensures var d := DecodeAt(OPCODES, s0, s.cpu.eip, false, p).value;
            var r, q := RunSlot(Qx86(hv), d.slot, s), Step(Qx86(hv), s.(gas := s.gas - less));
            var extra := Extra(s.(gas := s.gas - less));
            && (extra > 0 <==> Surcharge(s0) > 0 && InWriteable(s.cpu.eip))
            && !OutOfGasOutcome(r)
            && (if OutOfGasOutcome(q) then less + extra > 0 else Lags(r, q, less + extra))
            && Frozen(s0, q.st)
            && DecodeAt(OPCODES, s0, s.cpu.eip, false, DEFAULT_SLOT) == Ok(d)
  {
    hide DecodeAt, Exec, RunSlot, Kept, RespectsFrozen, OnCpu, Lags;
    var t := s.(gas := s.gas - less);
    KeptIsFetched(hv, s0, t, p);
    var d := DecodeAt(OPCODES, s0, s.cpu.eip, false, p).value;
    DearerSlot(hv, d.slot, s, less, Extra(t));
    MachineKeepsFrozen(OPCODES, hv);
    StepFrozen(Qx86(hv), t);
    FrozenTransitive(s0, t, Step(Qx86(hv), t).st);
  }

  /** When the decoder reads past it, so much holds at the next. */
  lemma DearerNext(hv: Hypervisor, s0: State, s: State, less: nat, p: Slot, n: nat)
    requires less <= s.gas && KeptFrom(hv, s0, s.(gas := s.gas - less), n + 1)
    requires DecodeAt(OPCODES, s0, s.cpu.eip, false, p).Ok? && !DecodeAt(OPCODES, s0, s.cpu.eip, false, p).value.stop
    requires DecodeAt(OPCODES, s0, s.cpu.eip, false, DEFAULT_SLOT) == DecodeAt(OPCODES, s0, s.cpu.eip, false, p)
    requires Step(Qx86(hv), s.(gas := s.gas - less)).Continue?
    ensures var d := DecodeAt(OPCODES, s0, s.cpu.eip, false, p).value;
            var r := RunSlot(Qx86(hv), d.slot, s);
            r.Continue? ==> r.st.cpu.eip == d.next && r.st.gas == SatSub(s.gas, d.slot.gasCost)
    ensures KeptFrom(hv, s0, Step(Qx86(hv), s.(gas := s.gas - less)).st, n)
  {
    hide DecodeAt, Exec, RunSlot, Step, KeptFrom;
    ReadPastHere(hv, s0, s, p);
    ReadsPastIt(Qx86(hv), s0, s.(gas := s.gas - less), DecodeAt(OPCODES, s0, s.cpu.eip, false, p).value);
    KeptAfterStep(hv, s0, s.(gas := s.gas - less), n);
  }

  /** After the last decoded cell nothing more happens. */
  lemma DearerLast(hv: Hypervisor, s0: State, eip: u32, gas: u64, stops: bool, cells: seq<Slot>, s: State, t: State)
    requires (stops || cells == []) && FillFrom(Qx86(hv), s0, eip, gas, stops, false, cells).Ok?
    ensures RunSlots(Qx86(hv), FillFrom(Qx86(hv), s0, eip, gas, stops, false, cells).value, s) == Continue(s)
    ensures !RunsThere(Qx86(hv), [], s) && Steps(Qx86(hv), t, 0) == Continue(t)
  {
    hide DecodeAt, Exec;
    StoppedFill(Qx86(hv), s0, eip, gas, false, cells, s) by { Nops(hv); }
  }

  lemma {:induction false} DearerRun(hv: Hypervisor, s0: State, s: State, less: nat, prev: seq<Slot>)
    requires RespectsFrozen(hv) && prev != [] && less <= s.gas && Frozen(s0, s.(gas := s.gas - less))
    requires KeptFrom(hv, s0, s.(gas := s.gas - less), |prev|)
    requires FillFrom(Qx86(hv), s0, s.cpu.eip, s.gas, false, false, prev).Ok?
    requires !OutOfGasOutcome(RunSlots(Qx86(hv), FillFrom(Qx86(hv), s0, s.cpu.eip, s.gas, false, false, prev).value, s))
    ensures var m := Qx86(hv);
            var filled := FillFrom(m, s0, s.cpu.eip, s.gas, false, false, prev).value;
            var k := |FillTrace(m, s0, s.cpu.eip, s.gas, false, false, prev)|;
            && 1 <= k <= |filled|
            && FallsBehind(RunSlots(m, filled, s), Steps(m, s.(gas := s.gas - less), k), less,
                           Surcharge(s0) > 0 && RunsThere(m, filled[..k], s))
    decreases prev
  {
    hide DecodeAt, Exec, RunSlot, Step, Kept, KeptFrom, RespectsFrozen, OnCpu, AsPredicted, Frozen, ReadsPast, FallsBehind, NopsDoNothing, Surcharge, Extra;
    var m := Qx86(hv);
    var t := s.(gas := s.gas - less);
    var d := DecodeAt(OPCODES, s0, s.cpu.eip, false, prev[0]).value;
    var left := SatSub(s.gas, d.slot.gasCost);
    var stops := d.stop || left == 0;
    FillFirst(m, s0, s.cpu.eip, s.gas, prev);
    var rest := FillFrom(m, s0, d.next, left, stops, false, prev[1..]).value;
    var k := |FillTrace(m, s0, d.next, left, stops, false, prev[1..])|;
    var extra := Extra(t);
    var r, q := RunSlot(m, d.slot, s), Step(m, t);
    FirstAndRest(m, d.slot, rest, k, s);
    assert stops || prev[1..] == [] ==> rest[..k] == [] && k == 0;
    hide RunSlots, RunsThere, Steps, FillFrom, FillTrace, SatSub;
    KeptNow(hv, s0, t, |prev|);
    EnoughForFirst(m, d.slot, s);
    DearerFirst(hv, s0, s, less, prev[0]);
    FirstStep(m, t, k);
    if stops || prev[1..] == [] {
      DearerLast(hv, s0, d.next, left, stops, prev[1..], r.st, q.st);
      BehindHere(r, q, less, extra);
    } else if r.Continue? && q.Continue? {
      DearerNext(hv, s0, s, less, prev[0], |prev| - 1);
      DearerRun(hv, s0, r.st, less + extra, prev[1..]);
      FurtherBehind(RunSlots(m, rest, r.st), Steps(m, q.st, k), less, extra, Surcharge(s0) > 0 && RunsThere(m, rest[..k], r.st));
    } else {
      if r.Continue? {
        BehindAnyway(r, RunSlots(m, rest, r.st), q, less, extra, Surcharge(s0) > 0 && RunsThere(m, rest[..k], r.st));
      } else {
        BehindHere(r, q, less, extra);
      }
    }
  }

  lemma FillFirst(m: Machine, s0: State, eip: u32, gas: u64, prev: seq<Slot>)
    requires prev != [] && FillFrom(m, s0, eip, gas, false, false, prev).Ok?
    ensures m.decode(s0, eip, false, prev[0]).Ok?
    ensures var d := m.decode(s0, eip, false, prev[0]).value;
            var left := SatSub(gas, d.slot.gasCost);
            var rest := FillFrom(m, s0, d.next, left, d.stop || left == 0, false, prev[1..]);
            var k := |FillTrace(m, s0, d.next, left, d.stop || left == 0, false, prev[1..])|;
            && rest.Ok? && k <= |rest.value|
            && FillFrom(m, s0, eip, gas, false, false, prev) == Ok([d.slot] + rest.value)
            && |FillTrace(m, s0, eip, gas, false, false, prev)| == k + 1
  {
    var d := m.decode(s0, eip, false, prev[0]).value;
    var left := SatSub(gas, d.slot.gasCost);
    TraceLength(m, s0, d.next, left, d.stop || left == 0, false, prev[1..]);
  }

  lemma ReadsPastIt(m: Machine, s0: State, t: State, d: Decoded)
    requires m.decode(s0, t.cpu.eip, false, DEFAULT_SLOT) == Ok(d) && !d.stop
    ensures ReadsPast(m, s0, t)
  {
  }

  lemma BehindHere(r: Outcome, q: Outcome, less: nat, extra: nat)
    requires if OutOfGasOutcome(q) then less + extra > 0 else Lags(r, q, less + extra)
    ensures FallsBehind(r, q, less, extra > 0)
  {
  }

  /** Out of gas, one-at-a-time execution is behind whatever the other run goes on to. */
  lemma BehindAnyway(r: Outcome, r': Outcome, q: Outcome, less: nat, extra: nat, later: bool)
    requires if OutOfGasOutcome(q) then less + extra > 0 else Lags(r, q, less + extra)
    requires r.Continue? && !q.Continue?
    ensures FallsBehind(r', q, less, extra > 0 || later)
  {
  }

  lemma EnoughForFirst(m: Machine, p: Slot, s: State)
    ensures s.gas < p.gasCost ==> OutOfGasOutcome(RunSlot(m, p, s))
  {
  }

  lemma FirstAndRest(m: Machine, p: Slot, rest: seq<Slot>, k: nat, s: State)
    requires k <= |rest|
    ensures var r := RunSlot(m, p, s);
            && RunSlots(m, [p] + rest, s) == (if r.Continue? then RunSlots(m, rest, r.st) else r)
            && RunsThere(m, ([p] + rest)[..k + 1], s) == (InWriteable(s.cpu.eip) || (r.Continue? && RunsThere(m, rest[..k], r.st)))
  {
    hide RunSlot;
    assert ([p] + rest)[1..] == rest;
    assert ([p] + rest)[..k + 1][1..] == rest[..k];
  }

  // ---------- a cycle, and whole runs ----------

  /** The cells of a cycle that are decoded. */
  ghost function DecodedSlots(hv: Hypervisor, prev: seq<Slot>, s: State): seq<Slot>
    requires Fill(Qx86(hv), s, prev).Ok?
  {
    Fill(Qx86(hv), s, prev).value[..DecodedCells(Qx86(hv), s, prev)]
  }

  /** A cycle from read-only memory whose decoded instructions are kept until they
      run, and which is filled and does not end for want of gas. */
  ghost predicate KeptCycle(hv: Hypervisor, prev: seq<Slot>, s: State) {
    && prev != [] && !InWriteable(s.cpu.eip) && KeptFrom(hv, s, s, |prev|)
    && Fill(Qx86(hv), s, prev).Ok? && !OutOfGasOutcome(Cycle(Qx86(hv), prev, s))
  }

  lemma CycleFallsBehind(hv: Hypervisor, prev: seq<Slot>, s: State)
    requires RespectsFrozen(hv) && KeptCycle(hv, prev, s)
    ensures FallsBehind(Cycle(Qx86(hv), prev, s), Steps(Qx86(hv), s, |DecodedSlots(hv, prev, s)|), 0,
                        Surcharge(s) > 0 && RunsThere(Qx86(hv), DecodedSlots(hv, prev, s), s))
  {
    hide FillFrom, FillTrace, RunSlots, Steps, FallsBehind, RunsThere, KeptFrom, RespectsFrozen, Surcharge, Qx86, Frozen;
    FrozenItself(s);
    assert s.(gas := s.gas - 0) == s;
    DearerRun(hv, s, s, 0, Cleared(prev));
  }

  /** It agrees with executing as many instructions one at a time if and only if
      the surcharge is free or nothing in writable memory is run. */
  lemma CycleAgreesIff(hv: Hypervisor, prev: seq<Slot>, s: State)
    requires RespectsFrozen(hv) && KeptCycle(hv, prev, s)
    ensures Cycle(Qx86(hv), prev, s) == Steps(Qx86(hv), s, |DecodedSlots(hv, prev, s)|)
       <==> Surcharge(s) == 0 || !RunsThere(Qx86(hv), DecodedSlots(hv, prev, s), s)
  {
    hide Cycle, Steps, RunsThere, KeptFrom, Fill, DecodedSlots, RespectsFrozen, Surcharge, Qx86;
    CycleFallsBehind(hv, prev, s);
  }

  /** When that cycle is the whole run, the pipeline size matters if and only if the
      surcharge is not free and something in writable memory is run. */
  lemma RunAgreesIff(hv: Hypervisor, n: nat, s: State)
    requires RespectsFrozen(hv) && KeptCycle(hv, NewPipeline(n), s) && !Cycle(Qx86(hv), NewPipeline(n), s).Continue?
    ensures (forall r :: Executes(Qx86(hv), 1, s, r) <==> Executes(Qx86(hv), n, s, r))
       <==> Surcharge(s) == 0 || !RunsThere(Qx86(hv), DecodedSlots(hv, NewPipeline(n), s), s)
  {
    hide Cycle, Steps, RunsThere, KeptFrom, Fill, DecodedSlots, RespectsFrozen, Surcharge, Qx86;
    var m := Qx86(hv);
    var k := |DecodedSlots(hv, NewPipeline(n), s)|;
    CycleFallsBehind(hv, NewPipeline(n), s);
    CycleAgreesIff(hv, NewPipeline(n), s);
    OneCellIsReference(m, NewPipeline(1), s, k);
    OnlyOutcome(m, 1, s, k);
    assert Cycles(m, NewPipeline(n), s, 1) == Cycle(m, NewPipeline(n), s);
    OnlyOutcome(m, n, s, 1);
    hide Cycles, Executes, FallsBehind;
    assert Executes(m, 1, s, Steps(m, s, k)) && Executes(m, n, s, Cycle(m, NewPipeline(n), s));
  }

  /** Gas that a first cycle has not paid shows in every run that halts with some
      left and is fresh from there on. */
  lemma SavedSurchargeShows(hv: Hypervisor, n: nat, s: State, f: State)
    requires RespectsFrozen(hv) && GasOblivious(hv) && KeptCycle(hv, NewPipeline(n), s)
    requires Surcharge(s) > 0 && RunsThere(Qx86(hv), DecodedSlots(hv, NewPipeline(n), s), s)
    requires Cycle(Qx86(hv), NewPipeline(n), s).Continue? && FreshRun(hv, Cycle(Qx86(hv), NewPipeline(n), s).st, n)
    requires Executes(Qx86(hv), n, s, Halted(f)) && f.gas > 0
    ensures !Executes(Qx86(hv), 1, s, Halted(f))
  {
    hide Cycle, Steps, RunsThere, DecodedSlots, KeptFrom, RespectsFrozen, Surcharge, Qx86, GasOblivious, GasTransparent, FreshRun, Fill;
    hide Conforms, SoundProgram;
    var m := Qx86(hv);
    var k := |DecodedSlots(hv, NewPipeline(n), s)|;
    CycleFallsBehind(hv, NewPipeline(n), s);
    hide KeptCycle;
    var v, q := Cycle(m, NewPipeline(n), s).st, Steps(m, s, k);
    var kv := RestOfRun(hv, n, s, f);
    if Executes(m, 1, s, Halted(f)) {
      var c: nat :| Cycles(m, NewPipeline(1), s, c) == Halted(f);
      OneCellIsReference(m, NewPipeline(1), s, c);
      var more := StepsAfter(m, s, k, c);
      X86IsGasTransparent(hv);
      SpareGasIsKept(m, q.st, more, v.gas - q.st.gas);
      StepsEndOnce(m, v, kv, more);
    }
  }

  /** The rest of the run of a pipeline, one instruction at a time. */
  lemma RestOfRun(hv: Hypervisor, n: nat, s: State, f: State) returns (k: nat)
    requires RespectsFrozen(hv) && n > 0 && Cycle(Qx86(hv), NewPipeline(n), s).Continue?
    requires FreshRun(hv, Cycle(Qx86(hv), NewPipeline(n), s).st, n) && Executes(Qx86(hv), n, s, Halted(f))
    ensures Steps(Qx86(hv), Cycle(Qx86(hv), NewPipeline(n), s).st, k) == Halted(f)
  {
    hide FillFrom, RunSlots, Cleared, Steps, Qx86, FreshRun, Conforms, SoundProgram, RespectsFrozen;
    var m := Qx86(hv);
    var v := Cycle(m, NewPipeline(n), s).st;
    FreshRunIsSound(hv, v, n);
    var c: nat :| Cycles(m, NewPipeline(n), s, c) == Halted(f);
    k := CyclesAreSteps(m, Fill(m, s, NewPipeline(n)).value, v, c - 1);
  }

  lemma StepsAfter(m: Machine, s: State, k: nat, c: nat) returns (more: nat)
    requires !Steps(m, s, c).Continue?
    ensures if Steps(m, s, k).Continue? then Steps(m, Steps(m, s, k).st, more) == Steps(m, s, c)
            else Steps(m, s, k) == Steps(m, s, c)
  {
    hide Steps;
    if c <= k {
      StepsCompose(m, s, c, k - c);
      more := 0;
    } else {
      StepsCompose(m, s, k, c - k);
      more := c - k;
    }
  }
}

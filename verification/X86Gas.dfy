// The x86 machine is transparent to gas.

module X86Gas {
  import opened Words
  import Memory
  import opened VMState
  import opened Opcodes
  import opened Fetch
  import opened Refinement
  import opened Ops
  import opened X86
  import opened Gas

  function Stamp(e: Effect<State, State>, gas: u64, errorEip: u32): Effect<State, State> {
    match e
    case Done(s) => Done(s.(gas := gas, errorEip := errorEip))
    case Raised(s, error) => Raised(s.(gas := gas, errorEip := errorEip), error)
  }

  /** A hypervisor that neither looks at nor changes the gas and the error address. */
  ghost predicate GasOblivious(hv: Hypervisor) {
    && (forall s: State, n: u8, g: u64, e: u32 {:trigger hv(s.(gas := g, errorEip := e), n)} ::
          hv(s.(gas := g, errorEip := e), n) == Stamp(hv(s, n), g, e))
    && (forall s: State, n: u8 :: !Exhausted(hv(s, n)))
  }

  lemma OnceStamped(hv: Hypervisor, op: Op, p: Slot, s: State, g: u64, e: u32)
    requires GasOblivious(hv) && !op.Repe? && !op.Repne?
    ensures ExecOnce(hv, op, p, s.(gas := g, errorEip := e)) == Stamp(ExecOnce(hv, op, p, s), g, e)
    ensures !Exhausted(ExecOnce(hv, op, p, s))
  {
    hide CpuOp;
    if OnCpu(op) {
      CpuOpsHarmless(s.cpu, op, p);
    } else if op.Interrupt? {
      hide GetArg;
      var v := GetArg(s.cpu.regs, s.cpu.mem, p.args[0].location);
      if v.Ok? && v.value.U8Exact().Ok? {
        var n := v.value.U8Exact().value;
        assert hv(s.(gas := g, errorEip := e), n) == Stamp(hv(s, n), g, e);
      }
    }
  }

  /** Nothing but the rep loops looks at the gas. */
  lemma OnceKeepsGas(hv: Hypervisor, op: Op, p: Slot, s: State)
    requires GasOblivious(hv) && !op.Repe? && !op.Repne?
    ensures Left(ExecOnce(hv, op, p, s)).gas == s.gas
    ensures Left(ExecOnce(hv, op, p, s)).errorEip == s.errorEip
  {
    hide ExecOnce;
    OnceStamped(hv, op, p, s, s.gas, s.errorEip);
    assert s.(gas := s.gas, errorEip := s.errorEip) == s;
  }

  lemma TurnStamped(hv: Hypervisor, p: Slot, s: State, t: State, c: u64)
    requires GasOblivious(hv) && SameButGas(s, t)
    ensures Agree(RepTurn(hv, p, s, c), RepTurn(hv, p, t, c))
    ensures !Exhausted(RepTurn(hv, p, s, c))
    ensures RepTurn(hv, p, s, c).Done? ==>
              && RepTurn(hv, p, s, c).value.gas == SatSub(s.gas, c)
              && RepTurn(hv, p, t, c) == Stamp(RepTurn(hv, p, s, c), SatSub(t.gas, c), t.errorEip)
    ensures RepTurn(hv, p, s, c).Raised? ==>
              && RepTurn(hv, p, s, c).st.gas == s.gas
              && RepTurn(hv, p, t, c) == Stamp(RepTurn(hv, p, s, c), t.gas, t.errorEip)
  {
    hide ExecOnce, RepFunction, Decremented, GasOblivious;
    OnceStamped(hv, RepFunction(p), p, s, t.gas, t.errorEip);
    OnceKeepsGas(hv, RepFunction(p), p, s);
    assert s.(gas := t.gas, errorEip := t.errorEip) == t;
  }

  lemma {:induction false} RepLoopAgrees(hv: Hypervisor, p: Slot, s: State, t: State, c: u64, until: bool)
    requires GasOblivious(hv) && SameButGas(s, t)
    ensures var e, f := RepLoop(hv, p, s, c, until), RepLoop(hv, p, t, c, until);
            Exhausted(e) || Exhausted(f) || Agree(e, f)
    decreases RepCount(s.cpu, p.sizeOverride)
  {
    hide RepTurn, RepCount, StringOpcode, RepFlagOpcode, GasOblivious;
    if RepCount(s.cpu, p.sizeOverride) != 0 && s.gas != 0 && t.gas != 0 {
      TurnStamped(hv, p, s, t, c);
      var u, v := RepTurn(hv, p, s, c), RepTurn(hv, p, t, c);
      if u.Done? && StringOpcode(p.opcode) {
        RepTurnCounts(hv, p, s, c);
        RepLoopAgrees(hv, p, u.value, v.value, c, until);
      }
    }
  }

  lemma {:induction false} RepLoopLasts(hv: Hypervisor, p: Slot, s: State, t: State, c: u64, until: bool)
    requires GasOblivious(hv) && SameButGas(s, t) && s.gas <= t.gas
    ensures LastsAsLong(RepLoop(hv, p, s, c, until), RepLoop(hv, p, t, c, until))
    decreases RepCount(s.cpu, p.sizeOverride)
  {
    hide RepTurn, RepCount, StringOpcode, RepFlagOpcode, GasOblivious;
    if RepCount(s.cpu, p.sizeOverride) != 0 && s.gas != 0 {
      TurnStamped(hv, p, s, t, c);
      var u, v := RepTurn(hv, p, s, c), RepTurn(hv, p, t, c);
      if u.Done? && StringOpcode(p.opcode) {
        RepTurnCounts(hv, p, s, c);
        RepLoopLasts(hv, p, u.value, v.value, c, until);
      }
    }
  }

  /** The rest of a loop that ran out of gas costs no more than the whole loop. */
  lemma {:induction false} RepLoopRestLasts(hv: Hypervisor, p: Slot, s: State, t: State, y: State, c: u64, until: bool)
    requires GasOblivious(hv) && SameButGas(s, t) && t.gas <= y.gas
    requires Exhausted(RepLoop(hv, p, s, c, until)) && SameButGas(RepLoop(hv, p, s, c, until).st, y)
    ensures LastsAsLong(RepLoop(hv, p, t, c, until), RepLoop(hv, p, y, c, until))
    decreases RepCount(s.cpu, p.sizeOverride)
  {
    hide RepCount, StringOpcode, RepFlagOpcode, GasOblivious, RepFunction, ExecOnce, Decremented, IsStringOp;
    if s.gas == 0 {
      RepLoopLasts(hv, p, t, y, c, until);
    } else if t.gas != 0 {
      TurnStamped(hv, p, s, t, c);
      var u, v := RepTurn(hv, p, s, c), RepTurn(hv, p, t, c);
      RepTurnCounts(hv, p, s, c);
      RepLoopRestLasts(hv, p, u.value, v.value, y, c, until);
    }
  }

  lemma {:induction false} RepLoopGainsNoGas(hv: Hypervisor, p: Slot, s: State, c: u64, until: bool)
    requires GasOblivious(hv)
    ensures Left(RepLoop(hv, p, s, c, until)).gas <= s.gas
    decreases RepCount(s.cpu, p.sizeOverride)
  {
    hide RepTurn, RepCount, StringOpcode, RepFlagOpcode, GasOblivious;
    if RepCount(s.cpu, p.sizeOverride) != 0 && s.gas != 0 {
      TurnStamped(hv, p, s, s, c);
      var u := RepTurn(hv, p, s, c);
      if u.Done? && StringOpcode(p.opcode) {
        RepTurnCounts(hv, p, s, c);
        RepLoopGainsNoGas(hv, p, u.value, c, until);
      }
    }
  }

  lemma {:induction false} RepLoopResumes(hv: Hypervisor, p: Slot, s: State, t: State, y: State, c: u64, until: bool)
    requires GasOblivious(hv) && SameButGas(s, t)
    requires Exhausted(RepLoop(hv, p, s, c, until)) && SameButGas(RepLoop(hv, p, s, c, until).st, y)
    ensures y.cpu.eip == s.cpu.eip
    ensures var e, f := RepLoop(hv, p, y, c, until), RepLoop(hv, p, t, c, until);
            Exhausted(e) || Exhausted(f) || Agree(e, f)
    decreases RepCount(s.cpu, p.sizeOverride)
  {
    hide RepCount, StringOpcode, RepFlagOpcode, GasOblivious, RepFunction, ExecOnce, Decremented, IsStringOp;
    if s.gas == 0 {
      RepLoopAgrees(hv, p, y, t, c, until);
    } else if t.gas != 0 {
      TurnStamped(hv, p, s, t, c);
      var u, v := RepTurn(hv, p, s, c), RepTurn(hv, p, t, c);
      RepTurnCounts(hv, p, s, c);
      TurnKeepsEip(hv, p, s, c);
      RepLoopResumes(hv, p, u.value, v.value, y, c, until);
    } else {
      RepLoopKeepsEip(hv, p, s, c, until);
    }
  }

  lemma TurnKeepsEip(hv: Hypervisor, p: Slot, s: State, c: u64)
    requires StringOpcode(p.opcode)
    ensures RepTurn(hv, p, s, c).Done? ==> RepTurn(hv, p, s, c).value.cpu.eip == s.cpu.eip
  {
    hide RepFunction, StringOp, ExecOnce, IsStringOp, StringOpcode;
    StringTurn(hv, RepFunction(p), p, s);
  }

  lemma {:induction false} RepLoopKeepsEip(hv: Hypervisor, p: Slot, s: State, c: u64, until: bool)
    requires GasOblivious(hv) && Exhausted(RepLoop(hv, p, s, c, until))
    ensures RepLoop(hv, p, s, c, until).st.cpu.eip == s.cpu.eip
    decreases RepCount(s.cpu, p.sizeOverride)
  {
    hide RepCount, StringOpcode, RepFlagOpcode, GasOblivious, RepTurn;
    if s.gas != 0 {
      TurnStamped(hv, p, s, s, c);
      RepTurnCounts(hv, p, s, c);
      TurnKeepsEip(hv, p, s, c);
      RepLoopKeepsEip(hv, p, RepTurn(hv, p, s, c).value, c, until);
    }
  }

  /** What a rep loop hides by subtracting the gas of its last turn. */
  ghost predicate LoopShortfall(hv: Hypervisor, p: Slot, s: State, c: u64, until: bool, owed: nat) {
    var e := RepLoop(hv, p, s, c, until);
    && Left(e).gas <= s.gas && owed < 0x1_0000_0000_0000_0000
    && (owed > 0 ==> s.gas > 0 && Left(e).gas == 0)
    && (forall d: nat {:trigger Refuel(s, d)} :: s.gas + d < 0x1_0000_0000_0000_0000 ==>
          RepLoop(hv, p, Refuel(s, d), c, until) == WithGas(e, SatSub(Left(e).gas + d, owed)))
  }

  lemma {:induction false} LoopIsElastic(hv: Hypervisor, p: Slot, s: State, c: u64, until: bool) returns (owed: nat)
    requires GasOblivious(hv) && !Exhausted(RepLoop(hv, p, s, c, until))
    ensures LoopShortfall(hv, p, s, c, until, owed)
    decreases RepCount(s.cpu, p.sizeOverride)
  {
    hide RepTurn, RepCount, StringOpcode, RepFlagOpcode, GasOblivious, Wrap64;
    owed := 0;
    forall d: nat {:trigger Refuel(s, d)} | s.gas + d < 0x1_0000_0000_0000_0000
      ensures Refuel(s, d).gas == s.gas + d && SameButGas(s, Refuel(s, d))
    {
      RefuelAdds(s, d);
    }
    if RepCount(s.cpu, p.sizeOverride) != 0 {
      var u := RepTurn(hv, p, s, c);
      TurnStamped(hv, p, s, s, c);
      forall d: nat {:trigger Refuel(s, d)} | s.gas + d < 0x1_0000_0000_0000_0000
        ensures RepTurn(hv, p, Refuel(s, d), c)
             == WithGas(u, if u.Done? then SatSub(s.gas + d, c) else s.gas + d)
      {
        TurnStamped(hv, p, s, Refuel(s, d), c);
      }
      if u.Done? {
        var first := if s.gas < c then c - s.gas else 0;
        var rest := 0;
        if StringOpcode(p.opcode) && !(RepFlagOpcode(p.opcode) && u.value.cpu.flags.zero == until) {
          RepTurnCounts(hv, p, s, c);
          rest := LoopIsElastic(hv, p, u.value, c, until);
          LoopPlusTurn(hv, p, s, c, until, first, rest);
        }
        owed := first + rest;
      }
    }
  }

  lemma RefuelAdds(s: State, d: nat)
    requires s.gas + d < 0x1_0000_0000_0000_0000
    ensures Refuel(s, d).gas == s.gas + d && SameButGas(s, Refuel(s, d))
  {
  }

  /** A turn that is followed by the rest of the loop. */
  lemma LoopPlusTurn(hv: Hypervisor, p: Slot, s: State, c: u64, until: bool, first: nat, rest: nat)
    requires GasOblivious(hv) && s.gas > 0 && RepCount(s.cpu, p.sizeOverride) != 0 && StringOpcode(p.opcode)
    requires RepTurn(hv, p, s, c).Done? && first == if s.gas < c then c - s.gas else 0
    requires var u := RepTurn(hv, p, s, c).value;
             && !(RepFlagOpcode(p.opcode) && u.cpu.flags.zero == until)
             && LoopShortfall(hv, p, u, c, until, rest)
    ensures LoopShortfall(hv, p, s, c, until, first + rest)
  {
    hide RepTurn, RepCount, StringOpcode, RepFlagOpcode, GasOblivious;
    var u := RepTurn(hv, p, s, c).value;
    TurnStamped(hv, p, s, s, c);
    RepTurnCounts(hv, p, s, c);
    var e := RepLoop(hv, p, u, c, until);
    assert RepLoop(hv, p, s, c, until) == e;
    forall d: nat {:trigger Refuel(s, d)} | s.gas + d < 0x1_0000_0000_0000_0000
      ensures RepLoop(hv, p, Refuel(s, d), c, until) == WithGas(e, SatSub(Left(e).gas + d, first + rest))
    {
      RefuelAdds(s, d);
      TurnStamped(hv, p, s, Refuel(s, d), c);
      var left := SatSub(u.gas + d, first);
      var d' := if first == 0 then d else left;
      SatSubFacts(u.gas, d, first, rest, Left(e).gas);
      assert RepTurn(hv, p, Refuel(s, d), c) == Done(Refuel(u, d'));
      assert RepLoop(hv, p, Refuel(s, d), c, until) == RepLoop(hv, p, Refuel(u, d'), c, until);
    }
  }

  lemma ExecElastic(hv: Hypervisor, p: Slot, s: State) returns (owed: nat)
    requires GasOblivious(hv) && !Exhausted(Exec(hv, p, s))
    ensures var e := Exec(hv, p, s);
            && Left(e).gas <= s.gas && owed < 0x1_0000_0000_0000_0000
            && (owed > 0 ==> s.gas > 0 && Left(e).gas == 0)
            && (forall d: nat {:trigger Refuel(s, d)} :: s.gas + d < 0x1_0000_0000_0000_0000 ==>
                  Exec(hv, p, Refuel(s, d)) == WithGas(e, SatSub(Left(e).gas + d, owed)))
  {
    hide ExecOnce, RepLoop, RepGas, GasOblivious;
    owed := 0;
    if p.op.Repe? || (p.op.Repne? && RepFlagOpcode(p.opcode)) {
      owed := LoopIsElastic(hv, p, s, RepGas(s.costs, p), p.op.Repne?);
    } else if !p.op.Repne? {
      OnceKeepsGas(hv, p.op, p, s);
      forall d: nat {:trigger Refuel(s, d)} | s.gas + d < 0x1_0000_0000_0000_0000
        ensures ExecOnce(hv, p.op, p, Refuel(s, d)) == WithGas(ExecOnce(hv, p.op, p, s), s.gas + d)
      {
        OnceStamped(hv, p.op, p, s, s.gas + d, s.errorEip);
        assert Refuel(s, d) == s.(gas := s.gas + d, errorEip := s.errorEip);
      }
    }
  }

  lemma ExecAgrees(hv: Hypervisor, p: Slot, s: State, t: State)
    requires GasOblivious(hv) && SameButGas(s, t)
    ensures var e, f := Exec(hv, p, s), Exec(hv, p, t); Exhausted(e) || Exhausted(f) || Agree(e, f)
  {
    hide ExecOnce, RepLoop, RepGas, GasOblivious;
    if p.op.Repe? || p.op.Repne? {
      RepLoopAgrees(hv, p, s, t, RepGas(s.costs, p), p.op.Repne?);
    } else {
      OnceStamped(hv, p.op, p, s, t.gas, t.errorEip);
      assert s.(gas := t.gas, errorEip := t.errorEip) == t;
    }
  }

  lemma ExecLasts(hv: Hypervisor, p: Slot, s: State, t: State)
    requires GasOblivious(hv) && SameButGas(s, t) && s.gas <= t.gas
    ensures LastsAsLong(Exec(hv, p, s), Exec(hv, p, t)) && Left(Exec(hv, p, s)).gas <= s.gas
  {
    hide ExecOnce, RepLoop, RepGas, GasOblivious;
    if p.op.Repe? || p.op.Repne? {
      RepLoopLasts(hv, p, s, t, RepGas(s.costs, p), p.op.Repne?);
      RepLoopGainsNoGas(hv, p, s, RepGas(s.costs, p), p.op.Repne?);
    } else {
      OnceStamped(hv, p.op, p, s, t.gas, t.errorEip);
      OnceKeepsGas(hv, p.op, p, s);
      assert s.(gas := t.gas, errorEip := t.errorEip) == t;
    }
  }

  lemma ExecResumes(hv: Hypervisor, p: Slot, s: State, t: State, y: State)
    requires GasOblivious(hv) && SameButGas(s, t)
    requires Exhausted(Exec(hv, p, s)) && SameButGas(Exec(hv, p, s).st, y)
    ensures y.cpu.eip == s.cpu.eip
    ensures var e, f := Exec(hv, p, y), Exec(hv, p, t); Exhausted(e) || Exhausted(f) || Agree(e, f)
    ensures t.gas <= y.gas ==> LastsAsLong(Exec(hv, p, t), Exec(hv, p, y))
  {
    hide ExecOnce, RepLoop, RepGas, GasOblivious;
    if p.op.Repe? || p.op.Repne? {
      assert y.costs == s.costs by { LoopKeepsCosts(hv, p, s, RepGas(s.costs, p), p.op.Repne?); }
      RepLoopResumes(hv, p, s, t, y, RepGas(s.costs, p), p.op.Repne?);
      if t.gas <= y.gas {
        RepLoopRestLasts(hv, p, s, t, y, RepGas(s.costs, p), p.op.Repne?);
      }
    } else {
      OnceStamped(hv, p.op, p, s, s.gas, s.errorEip);
    }
  }

  /** A string loop leaves the schedule alone, whatever the hypervisor does. */
  lemma {:induction false} LoopKeepsCosts(hv: Hypervisor, p: Slot, s: State, c: u64, until: bool)
    requires GasOblivious(hv) && Exhausted(RepLoop(hv, p, s, c, until))
    ensures RepLoop(hv, p, s, c, until).st.costs == s.costs
    decreases RepCount(s.cpu, p.sizeOverride)
  {
    hide RepCount, StringOpcode, RepFlagOpcode, GasOblivious, RepFunction, ExecOnce, IsStringOp, StringOp;
    if s.gas != 0 {
      TurnStamped(hv, p, s, s, c);
      StringTurn(hv, RepFunction(p), p, s);
      RepTurnCounts(hv, p, s, c);
      LoopKeepsCosts(hv, p, RepTurn(hv, p, s, c).value, c, until);
    }
  }

  lemma DecodesBlind(table: Table, s: State, t: State, eip: u32, w: bool, prev: Slot)
    requires SameButGas(s, t)
    ensures DecodeAt(table, s, eip, w, prev) == DecodeAt(table, t, eip, w, prev)
  {
    hide ReadFields, ScanPrefixes, Memory.Read, FieldsGas, GetArg;
  }

  lemma MachineResumes(table: Table, hv: Hypervisor)
    requires GasOblivious(hv)
    ensures Resumes(MachineOf(table, hv))
  {
    hide DecodeAt, Exec, GasOblivious, Agree, SameButGas, LastsAsLong;
    var m := MachineOf(table, hv);
    forall p: Slot, s: State, t: State, y: State |
      Exhausted(m.exec(p, s)) && SameButGas(s, t) && SameButGas(m.exec(p, s).st, y)
      ensures m.exec(p, s).st.cpu.eip == s.cpu.eip
      ensures Exhausted(m.exec(p, y)) || Exhausted(m.exec(p, t)) || Agree(m.exec(p, y), m.exec(p, t))
      ensures t.gas <= y.gas ==> LastsAsLong(m.exec(p, t), m.exec(p, y))
    {
      ExecResumes(hv, p, s, t, y);
      ExecStopsInPlace(hv, p, s);
    }
  }

  lemma MachineIsBlind(table: Table, hv: Hypervisor)
    requires GasOblivious(hv)
    ensures DecodesGasBlind(MachineOf(table, hv)) && ExecutesGasBlind(MachineOf(table, hv))
  {
    hide DecodeAt, Exec, GasOblivious, Exhausted, Agree, SameButGas;
    var m := MachineOf(table, hv);
    forall s: State, t: State, eip: u32, w: bool, p: Slot | SameButGas(s, t)
      ensures m.decode(s, eip, w, p) == m.decode(t, eip, w, p)
    {
      DecodesBlind(table, s, t, eip, w, p);
    }
    forall p: Slot, s: State, t: State | SameButGas(s, t)
      ensures Exhausted(m.exec(p, s)) || Exhausted(m.exec(p, t)) || Agree(m.exec(p, s), m.exec(p, t))
    {
      ExecAgrees(hv, p, s, t);
    }
  }

  lemma MachineIsElastic(table: Table, hv: Hypervisor)
    requires GasOblivious(hv)
    ensures GasElastic(MachineOf(table, hv))
  {
    hide DecodeAt, Exec, GasOblivious, Exhausted, SatSub;
    var m := MachineOf(table, hv);
    forall p: Slot, s: State | !Exhausted(m.exec(p, s))
      ensures exists owed: nat :: HasShortfall(m, p, s, owed)
    {
      var owed := ExecElastic(hv, p, s);
      assert HasShortfall(m, p, s, owed);
    }
  }

  /** The x86 machine is transparent to gas under a gas-oblivious hypervisor. */
  lemma MachineIsGasTransparent(table: Table, hv: Hypervisor)
    requires GasOblivious(hv)
    ensures GasTransparent(MachineOf(table, hv))
  {
    hide DecodesGasBlind, ExecutesGasBlind, MoreLastsLonger, Resumes, GasElastic, GasOblivious;
    MachineIsBlind(table, hv);
    MachineResumes(table, hv);
    MachineLasts(table, hv);
    MachineIsElastic(table, hv);
  }

  lemma MachineLasts(table: Table, hv: Hypervisor)
    requires GasOblivious(hv)
    ensures MoreLastsLonger(MachineOf(table, hv))
  {
    hide DecodeAt, Exec, GasOblivious, SameButGas, LastsAsLong;
    var m := MachineOf(table, hv);
    forall p: Slot, s: State, t: State | SameButGas(s, t) && s.gas <= t.gas
      ensures LastsAsLong(m.exec(p, s), m.exec(p, t))
    {
      ExecLasts(hv, p, s, t);
    }
    forall p: Slot, s: State ensures Left(m.exec(p, s)).gas <= s.gas {
      GasOfItself(s);
      ExecLasts(hv, p, s, s);
    }
  }

  lemma GasOfItself(s: State)
    ensures SameButGas(s, s)
  {
  }

  lemma ExecStopsInPlace(hv: Hypervisor, p: Slot, s: State)
    requires GasOblivious(hv) && Exhausted(Exec(hv, p, s))
    ensures Exec(hv, p, s).st.cpu.eip == s.cpu.eip
  {
    hide Exec;
    ExecResumes(hv, p, s, s, Exec(hv, p, s).st);
  }
}

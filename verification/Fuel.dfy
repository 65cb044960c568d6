// More gas, and going on after running out of it, for `execute` on the x86 machine.

module Fuel {
  import opened Words
  import opened Errors
  import opened Memory
  import opened VMState
  import opened Opcodes
  import opened Fetch
  import Locality
  import opened Pipeline
  import opened Refinement
  import opened Runs
  import opened Gas
  import opened Ops
  import opened X86
  import opened X86Gas
  import opened Programs

  /** While a run from `t` goes on, it is the halting run from `s` up to gas. */
  lemma {:induction false} SameWhileRunning(m: Machine, s: State, t: State, k: nat, j: nat)
    requires GasTransparent(m) && SameButGas(s, t)
    requires Steps(m, s, k).Halted? && Steps(m, t, j).Continue?
    ensures Steps(m, s, j).Continue? && SameButGas(Steps(m, s, j).st, Steps(m, t, j).st)
    decreases j
  {
    hide GasTransparent, Step;
    if j > 0 {
      StepsAlike(m, s, t);
      SameWhileRunning(m, Step(m, s).st, Step(m, t).st, k - 1, j - 1);
    }
  }

  lemma StillFreshGasBlind(s0: State, s: State, t0: State, t: State)
    requires SameButGas(s0, t0) && SameButGas(s, t) && StillFresh(s0, s)
    ensures StillFresh(t0, t)
  {
    hide DecodeAt, RepFunction;
    DecodesBlind(OPCODES, s0, t0, s.cpu.eip, false, DEFAULT_SLOT);
    DecodesBlind(OPCODES, s, t, s.cpu.eip, false, DEFAULT_SLOT);
  }

  /** Two runs that are the same up to gas for i steps. */
  ghost predicate Parallel(m: Machine, s: State, t: State, i: nat) {
    forall j: nat :: j <= i ==>
      Steps(m, s, j).Continue? && Steps(m, t, j).Continue? && SameButGas(Steps(m, s, j).st, Steps(m, t, j).st)
  }

  lemma FreshFromGasBlind(hv: Hypervisor, s: State, t: State, i: nat)
    requires Parallel(Qx86(hv), s, t, i) && FreshFrom(hv, s, i)
    ensures FreshFrom(hv, t, i)
  {
    hide Steps, DecodeAt, StillFresh, SameButGas;
    var m := Qx86(hv);
    if ReadsAhead(m, t, t, i) {
      assert Steps(m, s, 0) == Continue(s) && Steps(m, t, 0) == Continue(t) by { NoSteps(m, s); NoSteps(m, t); }
      forall j: nat | j < i && Steps(m, s, j).Continue?
        ensures ReadsPast(m, s, Steps(m, s, j).st)
      {
        DecodesBlind(OPCODES, s, t, Steps(m, s, j).st.cpu.eip, false, DEFAULT_SLOT);
        SameEip(Steps(m, s, j).st, Steps(m, t, j).st);
        assert ReadsPast(m, t, Steps(m, t, j).st);
      }
      StillFreshGasBlind(s, Steps(m, s, i).st, t, Steps(m, t, i).st);
    }
  }

  lemma SameEip(s: State, t: State)
    requires SameButGas(s, t)
    ensures s.cpu.eip == t.cpu.eip
  {
  }

  lemma NoSteps(m: Machine, s: State)
    ensures Steps(m, s, 0) == Continue(s)
  {
  }

  /** From step a on the run from `y` is the one from `t`, c steps on. */
  ghost predicate Mirrors(m: Machine, t: State, y: State, c: nat, a: nat) {
    forall b: nat :: a <= b && Steps(m, y, b).Continue? ==>
      Steps(m, t, c + b).Continue? && SameButGas(Steps(m, t, c + b).st, Steps(m, y, b).st)
  }

  /** A run that mirrors a fresh one is as fresh. */
  lemma FreshShifted(hv: Hypervisor, t: State, y: State, n: nat, c: nat, a: nat, i: nat)
    requires i < n && FreshRun(hv, t, n) && Steps(Qx86(hv), y, a).Continue? && !InWriteable(Steps(Qx86(hv), y, a).st.cpu.eip)
    requires Mirrors(Qx86(hv), t, y, c, a)
    ensures FreshFrom(hv, Steps(Qx86(hv), y, a).st, i)
  {
    hide Steps, SameButGas, Qx86, ReadsAhead, StillFresh;
    var m := Qx86(hv);
    var u, v := Steps(m, t, c + a).st, Steps(m, y, a).st;
    SameEip(u, v);
    if Steps(m, v, i).Continue? {
      forall j: nat | j <= i
        ensures Steps(m, u, j).Continue? && Steps(m, v, j).Continue? && SameButGas(Steps(m, u, j).st, Steps(m, v, j).st)
      {
        StepsCompose(m, v, j, i - j);
        StepsCompose(m, y, a, j);
        StepsCompose(m, t, c + a, j);
        assert c + a + j == c + (a + j);
      }
      FreshFromGasBlind(hv, u, v, i);
    }
  }

  /** A run from the same state with other gas is as fresh as one that halts. */
  lemma FreshWithOtherGas(hv: Hypervisor, n: nat, s: State, t: State, k: nat)
    requires GasOblivious(hv) && FreshRun(hv, s, n) && SameButGas(s, t) && Steps(Qx86(hv), s, k).Halted?
    ensures FreshRun(hv, t, n)
  {
    hide Steps, FreshFrom, GasTransparent, SameButGas, GasOblivious, Qx86;
    var m := Qx86(hv);
    X86IsGasTransparent(hv);
    forall a: nat, i: nat | i < n && Steps(m, t, a).Continue? && !InWriteable(Steps(m, t, a).st.cpu.eip)
      ensures FreshFrom(hv, Steps(m, t, a).st, i)
    {
      forall b: nat | a <= b && Steps(m, t, b).Continue?
        ensures Steps(m, s, 0 + b).Continue? && SameButGas(Steps(m, s, 0 + b).st, Steps(m, t, b).st)
      {
        SameWhileRunning(m, s, t, k, b);
      }
      FreshShifted(hv, s, t, n, 0, a, i);
    }
  }

  lemma X86IsGasTransparent(hv: Hypervisor)
    requires GasOblivious(hv)
    ensures GasTransparent(Qx86(hv))
  {
    hide GasTransparent;
    MachineIsGasTransparent(OPCODES, hv);
  }

  lemma HaltsInSteps(hv: Hypervisor, n: nat, s: State, f: State) returns (k: nat)
    requires RespectsFrozen(hv) && FreshRun(hv, s, n) && n >= 1 && Executes(Qx86(hv), n, s, Halted(f))
    ensures Steps(Qx86(hv), s, k) == Halted(f)
  {
    hide Conforms, SoundProgram, FreshRun, Steps, Cycles, Qx86;
    FreshRunIsSound(hv, s, n);
    ExecuteIsReference(Qx86(hv), n, s);
    assert StepsTo(Qx86(hv), s, Halted(f));
    k :| Steps(Qx86(hv), s, k) == Halted(f);
  }

  lemma StepsHaltExecution(hv: Hypervisor, n: nat, s: State, k: nat)
    requires RespectsFrozen(hv) && FreshRun(hv, s, n) && n >= 1 && Steps(Qx86(hv), s, k).Halted?
    ensures Executes(Qx86(hv), n, s, Steps(Qx86(hv), s, k))
  {
    hide Conforms, SoundProgram, FreshRun, Steps, Cycles, Qx86;
    FreshRunIsSound(hv, s, n);
    ExecuteIsReference(Qx86(hv), n, s);
    assert StepsTo(Qx86(hv), s, Steps(Qx86(hv), s, k));
  }

  /** If `execute` halts, it halts with any larger amount of gas, in the same
      state; d more gas at the start leaves d more at the end, less one shortfall,
      which is 0 unless the run ended with no gas at all. */
  lemma MoreGasHaltsAlike(hv: Hypervisor, n: nat, s: State, f: State) returns (owed: nat)
    requires RespectsFrozen(hv) && GasOblivious(hv) && FreshRun(hv, s, n) && n >= 1
    requires Executes(Qx86(hv), n, s, Halted(f))
    ensures f.gas <= s.gas && owed < 0x1_0000_0000_0000_0000 && (owed > 0 ==> f.gas == 0)
    ensures forall d: nat :: s.gas + d < 0x1_0000_0000_0000_0000 ==>
              Executes(Qx86(hv), n, Refuel(s, d), Halted(f.(gas := SatSub(f.gas + d, owed))))
  {
    hide FreshRun, Steps, GasTransparent, GasOblivious, Qx86, Executes, RespectsFrozen;
    var m := Qx86(hv);
    var k := HaltsInSteps(hv, n, s, f);
    X86IsGasTransparent(hv);
    owed := MoreGasSameRun(m, s, k);
    forall d: nat | s.gas + d < 0x1_0000_0000_0000_0000
      ensures Executes(m, n, Refuel(s, d), Halted(f.(gas := SatSub(f.gas + d, owed))))
    {
      FreshWithOtherGas(hv, n, s, Refuel(s, d), k);
      assert Steps(m, Refuel(s, d), k) == Halted(f.(gas := SatSub(f.gas + d, owed)));
      StepsHaltExecution(hv, n, Refuel(s, d), k);
    }
  }

  // ---------- going on ----------

  /** The first number of steps after which a run has ended. */
  lemma {:induction false} FirstEnd(m: Machine, s: State, k: nat) returns (e: nat)
    requires !Steps(m, s, k).Continue?
    ensures 0 < e <= k && Steps(m, s, e - 1).Continue? && Steps(m, s, e) == Steps(m, s, k)
    decreases k
  {
    hide Step;
    e := 1;
    assert Steps(m, s, 0) == Continue(s);
    assert Step(m, s).Continue? ==> Steps(m, s, 1) == Steps(m, Step(m, s).st, 0);
    if Step(m, s).Continue? {
      e := FirstEnd(m, Step(m, s).st, k - 1);
      assert Steps(m, s, e) == Steps(m, Step(m, s).st, e - 1);
      assert Steps(m, s, e + 1) == Steps(m, Step(m, s).st, e);
      e := e + 1;
    } else {
      assert Steps(m, s, 1) == Step(m, s);
    }
  }

  /** A resumed run goes on only as the uninterrupted run does. */
  lemma {:induction false} ResumedTracks(m: Machine, s: State, t: State, y: State, k: nat, l: nat, i: nat)
    requires GasTransparent(m) && FailsOrdinarily(m) && SameButGas(s, t)
    requires k > 0 && Steps(m, s, k - 1).Continue? && OutOfGasOutcome(Steps(m, s, k))
    requires RefetchesSame(m, Steps(m, s, k - 1).st, Steps(m, s, k).st)
    requires SameButGas(Steps(m, s, k).st, y) && Steps(m, t, l).Halted?
    requires i > 0 && Steps(m, y, i).Continue?
    ensures Steps(m, t, k - 1 + i).Continue? && SameButGas(Steps(m, t, k - 1 + i).st, Steps(m, y, i).st)
    decreases k
  {
    hide GasTransparent, Step, FailsOrdinarily, RefetchesSame;
    if k == 1 {
      assert Steps(m, s, 1) == Step(m, s);
      ResumedStepAgrees(m, s, t, y);
      SameWhileRunning(m, Step(m, t).st, Step(m, y).st, l - 1, i - 1);
    } else {
      StepsAlike(m, s, t);
      ResumedTracks(m, Step(m, s).st, Step(m, t).st, y, k - 1, l - 1, i);
    }
  }

  /** An instruction without a rep prefix runs out of gas at its charge, and then
      nothing but the gas has changed. */
  lemma ChargedInVain(hv: Hypervisor, u: State)
    requires GasOblivious(hv) && OutOfGasOutcome(Step(Qx86(hv), u))
    requires var d := DecodeAt(OPCODES, u, u.cpu.eip, InWriteable(u.cpu.eip), DEFAULT_SLOT); d.Ok? ==> !IsRep(d.value.slot)
    ensures Step(Qx86(hv), u) == Failed(u.(gas := 0), OutOfGas)
  {
    hide DecodeAt, ExecOnce, GasOblivious, RepLoop, RepGas;
    var d := DecodeAt(OPCODES, u, u.cpu.eip, InWriteable(u.cpu.eip), DEFAULT_SLOT);
    if d.Ok? {
      var charged := u.(gas := SatSub(u.gas, d.value.slot.gasCost));
      OnceStamped(hv, d.value.slot.op, d.value.slot, charged, charged.gas, charged.errorEip);
    }
  }

  lemma StoppedInPlace(m: Machine, u: State)
    requires GasTransparent(m) && FailsOrdinarily(m) && OutOfGasOutcome(Step(m, u))
    ensures Step(m, u).st.cpu.eip == u.cpu.eip
  {
    hide DecodesGasBlind, ExecutesGasBlind, MoreLastsLonger, GasElastic;
    DecodedBeforeRunning(m, u);
    var p := m.decode(u, u.cpu.eip, InWriteable(u.cpu.eip), DEFAULT_SLOT).value.slot;
    var charged := u.(gas := SatSub(u.gas, p.gasCost));
    if u.gas >= p.gasCost {
      assert Exhausted(m.exec(p, charged)) && SameButGas(charged, charged);
      assert SameButGas(m.exec(p, charged).st, m.exec(p, charged).st);
    }
  }

  lemma OutOfGasFacts(hv: Hypervisor, u: State)
    requires RespectsFrozen(hv) && GasOblivious(hv) && OutOfGasOutcome(Step(Qx86(hv), u))
    ensures GasTransparent(Qx86(hv)) && FailsOrdinarily(Qx86(hv))
    ensures Frozen(u, Step(Qx86(hv), u).st) && Step(Qx86(hv), u).st.cpu.eip == u.cpu.eip
  {
    hide Step, DecodeAt, Exec, Preserves, GasTransparent, GasOblivious;
    Qx86Conforms(hv);
    X86IsGasTransparent(hv);
    StepFrozen(Qx86(hv), u);
    StoppedInPlace(Qx86(hv), u);
  }

  /** The instruction that ran out of gas is fetched again as it was if its own
      bytes are as they were, whatever it has written behind them. */
  lemma OwnBytesSuffice(hv: Hypervisor, u: State)
    requires RespectsFrozen(hv) && GasOblivious(hv) && OutOfGasOutcome(Step(Qx86(hv), u))
    requires DecodeAt(OPCODES, u, u.cpu.eip, InWriteable(u.cpu.eip), DEFAULT_SLOT).Ok?
    requires Read(Step(Qx86(hv), u).st.cpu.mem, u.cpu.eip, 16).Ok?
    requires Locality.SameStart(Read(u.cpu.mem, u.cpu.eip, 16).value, Read(Step(Qx86(hv), u).st.cpu.mem, u.cpu.eip, 16).value,
                       DecodeAt(OPCODES, u, u.cpu.eip, InWriteable(u.cpu.eip), DEFAULT_SLOT).value.slot.eipSize)
    ensures RefetchesSame(Qx86(hv), u, Step(Qx86(hv), u).st)
  {
    hide Step, DecodeAt, Exec, SaneTable, Read, Locality.SameStart, Preserves, GasTransparent, GasOblivious;
    OutOfGasFacts(hv, u);
    OpcodeTableIsSane();
    SameBytesDecode(OPCODES, u, Step(Qx86(hv), u).st, u.cpu.eip, InWriteable(u.cpu.eip), DEFAULT_SLOT);
  }

  /** That is always so but for a rep in writable memory. */
  lemma OnlyRepsOverwrite(hv: Hypervisor, u: State)
    requires RespectsFrozen(hv) && GasOblivious(hv) && OutOfGasOutcome(Step(Qx86(hv), u))
    requires var d := DecodeAt(OPCODES, u, u.cpu.eip, InWriteable(u.cpu.eip), DEFAULT_SLOT);
             d.Ok? ==> !InWriteable(u.cpu.eip) || !IsRep(d.value.slot)
    ensures RefetchesSame(Qx86(hv), u, Step(Qx86(hv), u).st)
  {
    hide Step, DecodeAt, Exec, SaneTable, Preserves, GasTransparent, GasOblivious, IsRep;
    var d := DecodeAt(OPCODES, u, u.cpu.eip, InWriteable(u.cpu.eip), DEFAULT_SLOT);
    OutOfGasFacts(hv, u);
    if d.Ok? && IsRep(d.value.slot) {
      OpcodeTableIsSane();
      DecodesFrozen(OPCODES, u, Step(Qx86(hv), u).st, u.cpu.eip, DEFAULT_SLOT);
    } else {
      ChargedInVain(hv, u);
      DecodesBlind(OPCODES, u, Step(Qx86(hv), u).st, u.cpu.eip, InWriteable(u.cpu.eip), DEFAULT_SLOT);
    }
  }

  /** A run from `s` that is out of gas after k steps, at an instruction that is
      still fetched as it was; one from `t` with other gas that halts after l; and
      the first one refuelled. */
  ghost predicate Interrupted(m: Machine, s: State, t: State, y: State, k: nat, l: nat) {
    && SameButGas(s, t)
    && k > 0 && Steps(m, s, k - 1).Continue? && OutOfGasOutcome(Steps(m, s, k))
    && RefetchesSame(m, Steps(m, s, k - 1).st, Steps(m, s, k).st) && SameButGas(Steps(m, s, k).st, y)
    && Steps(m, t, l).Halted?
  }

  lemma LastStepStops(m: Machine, s: State, k: nat)
    requires k > 0 && Steps(m, s, k - 1).Continue?
    ensures Steps(m, s, k) == Step(m, Steps(m, s, k - 1).st)
  {
    hide Step;
    StepsCompose(m, s, k - 1, 1);
    var u := Steps(m, s, k - 1).st;
    assert Steps(m, u, 1) == if Step(m, u).Continue? then Steps(m, Step(m, u).st, 0) else Step(m, u);
  }

  lemma InterruptedFacts(hv: Hypervisor, s: State, t: State, y: State, k: nat, l: nat)
    requires RespectsFrozen(hv) && GasOblivious(hv) && Interrupted(Qx86(hv), s, t, y, k, l)
    ensures GasTransparent(Qx86(hv)) && FailsOrdinarily(Qx86(hv))
    ensures var u := Steps(Qx86(hv), s, k - 1).st;
            && Frozen(u, y) && y.cpu.eip == u.cpu.eip
            && Steps(Qx86(hv), s, k) == Step(Qx86(hv), u)
  {
    hide Steps, Step, GasTransparent, FailsOrdinarily, Frozen, GasOblivious, Qx86, RefetchesSame;
    LastStepStops(Qx86(hv), s, k);
    var u := Steps(Qx86(hv), s, k - 1).st;
    OutOfGasFacts(hv, u);
    FrozenUpToGas(u, Step(Qx86(hv), u).st, y);
  }

  lemma FrozenUpToGas(u: State, x: State, y: State)
    requires Frozen(u, x) && SameButGas(x, y)
    ensures Frozen(u, y)
  {
  }

  /** The interrupted instruction is where the uninterrupted run was. */
  lemma InterruptedThere(hv: Hypervisor, s: State, t: State, y: State, k: nat, l: nat)
    requires RespectsFrozen(hv) && GasOblivious(hv) && Interrupted(Qx86(hv), s, t, y, k, l)
    ensures var r := Steps(Qx86(hv), t, k - 1); r.Continue? && SameButGas(r.st, Steps(Qx86(hv), s, k - 1).st)
  {
    hide Steps, GasTransparent, GasOblivious, Qx86;
    X86IsGasTransparent(hv);
    SameBothWays(s, t);
    SameWhileRunning(Qx86(hv), t, s, l, k - 1);
  }

  lemma SameBothWays(s: State, t: State)
    requires SameButGas(s, t)
    ensures SameButGas(t, s)
  {
  }

  /** After the interrupted instruction the resumed run is the other one again;
      before it, it is so unless that is a rep. */
  lemma ResumedIsOther(hv: Hypervisor, s: State, t: State, y: State, k: nat, l: nat, b: nat)
    requires RespectsFrozen(hv) && GasOblivious(hv) && Interrupted(Qx86(hv), s, t, y, k, l)
    requires Steps(Qx86(hv), y, b).Continue?
    requires b > 0 || (var d := DecodeAt(OPCODES, y, y.cpu.eip, InWriteable(y.cpu.eip), DEFAULT_SLOT); d.Ok? && !IsRep(d.value.slot))
    ensures var r := Steps(Qx86(hv), t, k - 1 + b); r.Continue? && SameButGas(r.st, Steps(Qx86(hv), y, b).st)
  {
    hide Steps, Step, GasTransparent, FailsOrdinarily, Frozen, GasOblivious, RefetchesSame, DecodeAt, Exec;
    hide IsRep;
    InterruptedFacts(hv, s, t, y, k, l);
    if b > 0 {
      ResumedTracks(Qx86(hv), s, t, y, k, l, b);
    } else {
      InterruptedThere(hv, s, t, y, k, l);
      NoSteps(Qx86(hv), y);
      var u := Steps(Qx86(hv), s, k - 1).st;
      assert SameButGas(u, y) by {
        RefetchedSlot(hv, u, Step(Qx86(hv), u).st, y);
        ChargedInVain(hv, u);
      }
    }
  }

  lemma RefetchedSlot(hv: Hypervisor, u: State, x: State, y: State)
    requires RefetchesSame(Qx86(hv), u, x) && SameButGas(x, y) && u.cpu.eip == y.cpu.eip
    ensures DecodeAt(OPCODES, u, u.cpu.eip, InWriteable(u.cpu.eip), DEFAULT_SLOT)
         == DecodeAt(OPCODES, y, y.cpu.eip, InWriteable(y.cpu.eip), DEFAULT_SLOT)
  {
    hide DecodeAt, Exec;
    DecodesBlind(OPCODES, x, y, y.cpu.eip, InWriteable(y.cpu.eip), DEFAULT_SLOT);
  }

  /** At the interrupted instruction itself. */
  lemma FreshWhenResumed(hv: Hypervisor, n: nat, s: State, t: State, y: State, k: nat, l: nat)
    requires RespectsFrozen(hv) && GasOblivious(hv) && FreshRun(hv, t, n) && Interrupted(Qx86(hv), s, t, y, k, l)
    requires n >= 1 && !InWriteable(y.cpu.eip)
    ensures StillFresh(y, y)
  {
    hide Steps, Step, Frozen, GasOblivious, DecodeAt, RepFunction, SaneTable, Qx86, GasTransparent, ReadsAhead;
    hide FailsOrdinarily, RefetchesSame;
    InterruptedFacts(hv, s, t, y, k, l);
    InterruptedThere(hv, s, t, y, k, l);
    var v, u := Steps(Qx86(hv), t, k - 1).st, Steps(Qx86(hv), s, k - 1).st;
    assert FreshFrom(hv, v, 0);
    NoSteps(Qx86(hv), v);
    NothingRead(Qx86(hv), v);
    DecodesBlind(OPCODES, v, u, y.cpu.eip, false, DEFAULT_SLOT);
    OpcodeTableIsSane();
    DecodesFrozen(OPCODES, u, y, y.cpu.eip, DEFAULT_SLOT);
  }

  lemma NothingRead(m: Machine, s: State)
    ensures ReadsAhead(m, s, s, 0)
  {
  }

  /** The decoder does not read past the interrupted rep. */
  lemma FreshAtRep(hv: Hypervisor, n: nat, s: State, t: State, y: State, k: nat, l: nat, i: nat)
    requires RespectsFrozen(hv) && GasOblivious(hv) && FreshRun(hv, t, n) && Interrupted(Qx86(hv), s, t, y, k, l)
    requires i < n && !InWriteable(y.cpu.eip)
    requires var d := DecodeAt(OPCODES, y, y.cpu.eip, false, DEFAULT_SLOT); d.Err? || IsRep(d.value.slot)
    ensures FreshFrom(hv, y, i)
  {
    hide Steps, StillFresh, DecodeAt, Exec, SaneTable, IsRep;
    NoSteps(Qx86(hv), y);
    if i == 0 {
      FreshWhenResumed(hv, n, s, t, y, k, l);
    } else {
      RepsStop(OPCODES, y, y.cpu.eip, false, DEFAULT_SLOT) by { OpcodeTableIsSane(); }
      NotReadAhead(Qx86(hv), y, i);
    }
  }

  lemma ResumedMirrors(hv: Hypervisor, s: State, t: State, y: State, k: nat, l: nat, a: nat)
    requires RespectsFrozen(hv) && GasOblivious(hv) && Interrupted(Qx86(hv), s, t, y, k, l)
    requires a > 0 || (var d := DecodeAt(OPCODES, y, y.cpu.eip, InWriteable(y.cpu.eip), DEFAULT_SLOT); d.Ok? && !IsRep(d.value.slot))
    ensures Mirrors(Qx86(hv), t, y, k - 1, a)
  {
    hide Steps, GasOblivious, RespectsFrozen, DecodeAt, IsRep, Qx86, SameButGas;
    forall b: nat | a <= b && Steps(Qx86(hv), y, b).Continue?
      ensures Steps(Qx86(hv), t, k - 1 + b).Continue?
      ensures SameButGas(Steps(Qx86(hv), t, k - 1 + b).st, Steps(Qx86(hv), y, b).st)
    {
      ResumedIsOther(hv, s, t, y, k, l, b);
    }
  }

  lemma FreshElsewhere(hv: Hypervisor, n: nat, s: State, t: State, y: State, k: nat, l: nat, a: nat, i: nat)
    requires RespectsFrozen(hv) && GasOblivious(hv) && FreshRun(hv, t, n) && Interrupted(Qx86(hv), s, t, y, k, l)
    requires i < n && Steps(Qx86(hv), y, a).Continue? && !InWriteable(Steps(Qx86(hv), y, a).st.cpu.eip)
    requires a > 0 || (var d := DecodeAt(OPCODES, y, y.cpu.eip, InWriteable(y.cpu.eip), DEFAULT_SLOT); d.Ok? && !IsRep(d.value.slot))
    ensures FreshFrom(hv, Steps(Qx86(hv), y, a).st, i)
  {
    hide Steps, GasOblivious, RespectsFrozen, DecodeAt, FreshFrom, FreshRun, IsRep, Qx86, SameButGas;
    ResumedMirrors(hv, s, t, y, k, l, a);
    FreshShifted(hv, t, y, n, k - 1, a, i);
  }

  lemma ResumedRunIsFresh(hv: Hypervisor, n: nat, s: State, t: State, y: State, k: nat, l: nat)
    requires RespectsFrozen(hv) && GasOblivious(hv) && FreshRun(hv, t, n) && Interrupted(Qx86(hv), s, t, y, k, l)
    ensures FreshRun(hv, y, n)
  {
    hide Steps, GasOblivious, RespectsFrozen, DecodeAt, Interrupted, FreshFrom, IsRep, Qx86;
    NoSteps(Qx86(hv), y);
    var d := DecodeAt(OPCODES, y, y.cpu.eip, InWriteable(y.cpu.eip), DEFAULT_SLOT);
    forall a: nat, i: nat | i < n && Steps(Qx86(hv), y, a).Continue? && !InWriteable(Steps(Qx86(hv), y, a).st.cpu.eip)
      ensures FreshFrom(hv, Steps(Qx86(hv), y, a).st, i)
    {
      if a == 0 && (d.Err? || IsRep(d.value.slot)) {
        FreshAtRep(hv, n, s, t, y, k, l, i);
      } else {
        FreshElsewhere(hv, n, s, t, y, k, l, a, i);
      }
    }
  }

  lemma NotReadAhead(m: Machine, s: State, i: nat)
    requires i > 0 && !ReadsPast(m, s, s)
    ensures !ReadsAhead(m, s, s, i)
  {
    assert Steps(m, s, 0) == Continue(s);
  }

  /** Where the run from `s` runs out of gas, in `x`, the instruction is still
      fetched as it was. */
  ghost predicate CodeStands(hv: Hypervisor, s: State, x: State) {
    forall k: nat :: Steps(Qx86(hv), s, k).Continue? && Steps(Qx86(hv), s, k + 1) == Failed(x, OutOfGas) ==>
      RefetchesSame(Qx86(hv), Steps(Qx86(hv), s, k).st, x)
  }

  /** No less gas than the run from `t` has left where the one from `s` ran out. */
  ghost predicate CoversRest(hv: Hypervisor, s: State, t: State, x: State, gas: u64) {
    forall k: nat :: Steps(Qx86(hv), s, k + 1) == Failed(x, OutOfGas) && Steps(Qx86(hv), t, k).Continue? ==>
      Steps(Qx86(hv), t, k).st.gas <= gas
  }

  /** The step at which `execute` ran out of gas. */
  lemma InterruptedAfter(hv: Hypervisor, n: nat, s: State, t: State, x: State, y: State, l: nat) returns (k: nat)
    requires RespectsFrozen(hv) && GasOblivious(hv) && FreshRun(hv, t, n) && n >= 1
    requires SameButGas(s, t) && SameButGas(x, y) && Steps(Qx86(hv), t, l).Halted?
    requires Executes(Qx86(hv), n, s, Failed(x, OutOfGas)) && CodeStands(hv, s, x)
    ensures Interrupted(Qx86(hv), s, t, y, k, l) && Steps(Qx86(hv), s, k) == Failed(x, OutOfGas)
    ensures GasTransparent(Qx86(hv)) && FailsOrdinarily(Qx86(hv)) && FreshRun(hv, y, n)
  {
    hide Steps, GasTransparent, FailsOrdinarily, GasOblivious, Qx86, RefetchesSame, FreshRun, RespectsFrozen;
    hide Conforms, SoundProgram, Cycles, Frozen;
    var m := Qx86(hv);
    FreshWithOtherGas(hv, n, t, s, l) by { SameBothWays(s, t); }
    FreshRunIsSound(hv, s, n);
    ExecuteIsReference(m, n, s);
    assert StepsTo(m, s, Failed(x, OutOfGas));
    var e: nat :| Steps(m, s, e) == Failed(x, OutOfGas);
    k := FirstEnd(m, s, e);
    assert Steps(m, s, (k - 1) + 1) == Failed(x, OutOfGas);
    InterruptedFacts(hv, s, t, y, k, l);
    ResumedRunIsFresh(hv, n, s, t, y, k, l);
  }

  /** `execute` stopped by OutOfGas and called again with any gas at all, at an
      instruction that is still fetched as it was, either runs out of gas again or
      halts as an uninterrupted call does, with the same registers, flags, eip and
      memory. */
  lemma RefuelledExecutionAgrees(hv: Hypervisor, n: nat, s: State, t: State, x: State, y: State, f: State, r: Outcome)
    requires RespectsFrozen(hv) && GasOblivious(hv) && FreshRun(hv, t, n) && n >= 1
    requires SameButGas(s, t) && SameButGas(x, y)
    requires Executes(Qx86(hv), n, s, Failed(x, OutOfGas)) && Executes(Qx86(hv), n, t, Halted(f))
    requires CodeStands(hv, s, x) && Executes(Qx86(hv), n, y, r)
    ensures OutOfGasOutcome(r) || (r.Halted? && SameButGas(f, r.st))
  {
    hide Steps, GasTransparent, FailsOrdinarily, GasOblivious, Qx86, RefetchesSame, FreshRun, RespectsFrozen;
    hide Conforms, SoundProgram, Executes, CodeStands;
    var m := Qx86(hv);
    var l := HaltsInSteps(hv, n, t, f);
    var k := InterruptedAfter(hv, n, s, t, x, y, l);
    var j := EndsInSteps(hv, n, y, r);
    if !OutOfGasOutcome(r) {
      ResumedEnds(m, s, t, y, k, l, j);
    }
  }

  /** What `execute` ends in, the reference ends in, up to the breaking error. */
  lemma EndsInSteps(hv: Hypervisor, n: nat, s: State, r: Outcome) returns (j: nat)
    requires RespectsFrozen(hv) && FreshRun(hv, s, n) && n >= 1 && Executes(Qx86(hv), n, s, r)
    ensures !Steps(Qx86(hv), s, j).Continue?
    ensures if Breaks(r) then Breaks(Steps(Qx86(hv), s, j)) else Steps(Qx86(hv), s, j) == r
  {
    hide Conforms, SoundProgram, FreshRun, Steps, Cycles, Qx86;
    FreshRunIsSound(hv, s, n);
    ExecuteIsReference(Qx86(hv), n, s);
    var r' :| StepsTo(Qx86(hv), s, r') && if Breaks(r) then Breaks(r') else r' == r;
    j :| Steps(Qx86(hv), s, j) == r';
  }

  /** Given the gas the uninterrupted call has left at that point, it halts. */
  lemma RefuelledExecutionHalts(hv: Hypervisor, n: nat, s: State, t: State, x: State, y: State, f: State)
    requires RespectsFrozen(hv) && GasOblivious(hv) && FreshRun(hv, t, n) && n >= 1
    requires SameButGas(s, t) && SameButGas(x, y)
    requires Executes(Qx86(hv), n, s, Failed(x, OutOfGas)) && Executes(Qx86(hv), n, t, Halted(f))
    requires CodeStands(hv, s, x) && CoversRest(hv, s, t, x, y.gas)
    ensures FreshRun(hv, y, n)
    ensures exists g :: Executes(Qx86(hv), n, y, Halted(g)) && SameButGas(f, g)
  {
    hide Steps, GasTransparent, FailsOrdinarily, GasOblivious, Qx86, RefetchesSame, FreshRun, RespectsFrozen;
    hide Executes, CodeStands;
    var m := Qx86(hv);
    var l := HaltsInSteps(hv, n, t, f);
    var k := InterruptedAfter(hv, n, s, t, x, y, l);
    assert Steps(m, s, (k - 1) + 1) == Failed(x, OutOfGas);
    var j := ResumeAfterOutOfGas(m, s, t, y, k, l);
    StepsHaltExecution(hv, n, y, j);
    var g := Steps(m, y, j).st;
    assert Steps(m, y, j) == Halted(g);
  }

  // ---------- in slices ----------

  /** `y` is where a run from `s` stands after it has run out of gas and been given
      the next of `fuels`, as often as there are fuels. */
  ghost predicate AfterSlices(hv: Hypervisor, n: nat, s: State, fuels: seq<u64>, y: State)
    decreases fuels
  {
    if fuels == [] then y == s
    else exists x ::
      && Executes(Qx86(hv), n, s, Failed(x, OutOfGas)) && CodeStands(hv, s, x)
      && AfterSlices(hv, n, x.(gas := fuels[0]), fuels[1..], y)
  }

  lemma WholeGasCovers(hv: Hypervisor, s: State, t: State, x: State)
    requires GasOblivious(hv)
    ensures CoversRest(hv, s, t, x, t.gas)
  {
    hide Steps, GasTransparent, GasOblivious;
    X86IsGasTransparent(hv);
    forall k: nat | Steps(Qx86(hv), t, k).Continue?
      ensures Steps(Qx86(hv), t, k).st.gas <= t.gas
    {
      GasOnlyFalls(Qx86(hv), t, k);
    }
  }

  /** The same before any slice. */
  lemma OtherGasStaysOnCourse(hv: Hypervisor, n: nat, s: State, t: State, f: State)
    requires RespectsFrozen(hv) && GasOblivious(hv) && FreshRun(hv, t, n) && n >= 1
    requires SameButGas(s, t) && Executes(Qx86(hv), n, t, Halted(f))
    ensures forall r :: Executes(Qx86(hv), n, s, r) ==> OutOfGasOutcome(r) || (r.Halted? && SameButGas(f, r.st))
    ensures exists g :: Executes(Qx86(hv), n, s.(gas := t.gas), Halted(g)) && SameButGas(f, g)
  {
    hide FreshRun, Executes, GasOblivious, RespectsFrozen, Qx86, Steps, GasTransparent;
    var m := Qx86(hv);
    X86IsGasTransparent(hv);
    var l := HaltsInSteps(hv, n, t, f);
    FreshWithOtherGas(hv, n, t, s, l) by { SameBothWays(s, t); }
    forall r | Executes(m, n, s, r) && !OutOfGasOutcome(r)
      ensures r.Halted? && SameButGas(f, r.st)
    {
      var j := EndsInSteps(hv, n, s, r);
      SameBothWays(s, t);
      HaltsOrRunsOut(m, t, s, l, j);
    }
    var s' := s.(gas := t.gas);
    FreshWithOtherGas(hv, n, t, s', l) by { SameBothWays(s, t); }
    HaltsWithMore(m, t, s', l);
    StepsHaltExecution(hv, n, s', l);
    var g := Steps(m, s', l).st;
    assert Executes(m, n, s', Halted(g));
  }

  /** A program that halts in one call on enough gas comes to nothing else when it
      is run in slices of any sizes: after every number of them the next call runs
      out of gas or halts in the same registers, flags, eip and memory, and does
      halt when it is given the gas of the whole run. */
  lemma {:induction false} SlicesStayOnCourse(hv: Hypervisor, n: nat, s: State, t: State, fuels: seq<u64>, y: State, f: State)
    requires RespectsFrozen(hv) && GasOblivious(hv) && FreshRun(hv, t, n) && n >= 1
    requires SameButGas(s, t) && Executes(Qx86(hv), n, t, Halted(f)) && AfterSlices(hv, n, s, fuels, y)
    ensures forall r :: Executes(Qx86(hv), n, y, r) ==> OutOfGasOutcome(r) || (r.Halted? && SameButGas(f, r.st))
    ensures exists g :: Executes(Qx86(hv), n, y.(gas := t.gas), Halted(g)) && SameButGas(f, g)
    decreases fuels
  {
    hide FreshRun, Executes, CodeStands, CoversRest, GasOblivious, RespectsFrozen, Qx86;
    if fuels == [] {
      OtherGasStaysOnCourse(hv, n, s, t, f);
    } else {
      var x :| && Executes(Qx86(hv), n, s, Failed(x, OutOfGas)) && CodeStands(hv, s, x)
               && AfterSlices(hv, n, x.(gas := fuels[0]), fuels[1..], y);
      var t' := x.(gas := t.gas);
      WholeGasCovers(hv, s, t, x);
      RefuelledExecutionHalts(hv, n, s, t, x, t', f);
      var f' :| Executes(Qx86(hv), n, t', Halted(f')) && SameButGas(f, f');
      SlicesStayOnCourse(hv, n, x.(gas := fuels[0]), t', fuels[1..], y, f');
    }
  }
}

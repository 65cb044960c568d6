// Gas decides how long a program may run, not what it computes.

module Gas {
  import opened Words
  import opened Errors
  import opened VMState
  import opened Fetch
  import opened Pipeline
  import opened Refinement

  /** Equal up to the gas left and the recorded error address. */
  predicate SameButGas(s: State, t: State) {
    s.cpu == t.cpu && s.costs == t.costs
  }

  predicate Exhausted(e: Effect<State, State>) {
    e.Raised? && e.error == OutOfGas
  }

  predicate Agree(e: Effect<State, State>, f: Effect<State, State>) {
    && SameButGas(Left(e), Left(f))
    && e.Done? == f.Done?
    && (e.Raised? ==> e.error == f.error)
  }

  function Refuel(s: State, d: nat): State {
    s.(gas := Wrap64(s.gas + d))
  }

  function WithGas(e: Effect<State, State>, g: u64): Effect<State, State> {
    if e.Done? then Done(e.value.(gas := g)) else Raised(e.st.(gas := g), e.error)
  }

  function SameEndWith(r: Outcome, g: u64): Outcome {
    match r
    case Continue(t) => Continue(t.(gas := g))
    case Halted(t) => Halted(t.(gas := g))
    case Failed(t, e) => Failed(t.(gas := g), e)
  }

  // ---------- what is asked of a machine ----------

  ghost predicate DecodesGasBlind(m: Machine) {
    forall s: State, t: State, eip: u32, w: bool, p: Slot :: SameButGas(s, t) ==>
      m.decode(s, eip, w, p) == m.decode(t, eip, w, p)
  }

  /** As long as neither runs out, the gas does not show in the effect. */
  ghost predicate ExecutesGasBlind(m: Machine) {
    forall p: Slot, s: State, t: State :: SameButGas(s, t) ==>
      Exhausted(m.exec(p, s)) || Exhausted(m.exec(p, t)) || Agree(m.exec(p, s), m.exec(p, t))
  }

  /** If `e` has not run out of gas, `f` has not either, and has at least as much left. */
  predicate LastsAsLong(e: Effect<State, State>, f: Effect<State, State>) {
    Exhausted(e) || (!Exhausted(f) && Left(f).gas >= Left(e).gas)
  }

  /** With more gas an instruction lasts at least as long, and it gains no gas. */
  ghost predicate MoreLastsLonger(m: Machine) {
    && (forall p: Slot, s: State, t: State :: SameButGas(s, t) && s.gas <= t.gas ==>
          LastsAsLong(m.exec(p, s), m.exec(p, t)))
    && (forall p: Slot, s: State :: Left(m.exec(p, s)).gas <= s.gas)
  }

  /** An instruction that runs out of gas half way can be run again from where
      it stopped, with the effect it would have had, and for no more gas. */
  ghost predicate Resumes(m: Machine) {
    forall p: Slot, s: State, t: State, y: State ::
      Exhausted(m.exec(p, s)) && SameButGas(s, t) && SameButGas(m.exec(p, s).st, y) ==>
        && m.exec(p, s).st.cpu.eip == s.cpu.eip
        && (Exhausted(m.exec(p, y)) || Exhausted(m.exec(p, t)) || Agree(m.exec(p, y), m.exec(p, t)))
        && (t.gas <= y.gas ==> LastsAsLong(m.exec(p, t), m.exec(p, y)))
  }

  /** With d more gas to start with, the effect is the same and d more gas is
      left, less the shortfall a saturating subtraction has hidden. */
  ghost predicate HasShortfall(m: Machine, p: Slot, s: State, owed: nat) {
    var e := m.exec(p, s);
    && Left(e).gas <= s.gas && owed < 0x1_0000_0000_0000_0000
    && (owed > 0 ==> s.gas > 0 && Left(e).gas == 0)
    && (forall d: nat {:trigger Refuel(s, d)} :: s.gas + d < 0x1_0000_0000_0000_0000 ==>
          m.exec(p, Refuel(s, d)) == WithGas(e, SatSub(Left(e).gas + d, owed)))
  }

  ghost predicate GasElastic(m: Machine) {
    forall p: Slot, s: State :: Exhausted(m.exec(p, s)) || exists owed: nat :: HasShortfall(m, p, s, owed)
  }

  ghost predicate GasTransparent(m: Machine) {
    DecodesGasBlind(m) && ExecutesGasBlind(m) && MoreLastsLonger(m) && Resumes(m) && GasElastic(m)
  }

  // ---------- more gas ----------

  /** The same for a run of k steps that halts in f. */
  ghost predicate RunShortfall(m: Machine, s: State, k: nat, f: State, owed: nat) {
    && f.gas <= s.gas && owed < 0x1_0000_0000_0000_0000
    && (owed > 0 ==> s.gas > 0 && f.gas == 0)
    && (forall d: nat {:trigger Refuel(s, d)} :: s.gas + d < 0x1_0000_0000_0000_0000 ==>
          Steps(m, Refuel(s, d), k) == Halted(f.(gas := SatSub(f.gas + d, owed))))
  }

  lemma SameFetch(m: Machine, s: State, t: State)
    requires DecodesGasBlind(m) && SameButGas(s, t)
    ensures m.decode(t, s.cpu.eip, InWriteable(s.cpu.eip), DEFAULT_SLOT)
         == m.decode(s, s.cpu.eip, InWriteable(s.cpu.eip), DEFAULT_SLOT)
  {
  }

  lemma StepShortfall(m: Machine, s: State) returns (owed: nat)
    requires GasTransparent(m) && !Step(m, s).Failed?
    ensures var r := Step(m, s);
            && r.st.gas <= s.gas && owed < 0x1_0000_0000_0000_0000
            && (owed > 0 ==> s.gas > 0 && r.st.gas == 0)
            && (forall d: nat {:trigger Refuel(s, d)} :: s.gas + d < 0x1_0000_0000_0000_0000 ==>
                  Step(m, Refuel(s, d)) == SameEndWith(r, SatSub(r.st.gas + d, owed)))
  {
    hide DecodesGasBlind, ExecutesGasBlind, MoreLastsLonger, Resumes;
    var p := m.decode(s, s.cpu.eip, InWriteable(s.cpu.eip), DEFAULT_SLOT).value.slot;
    var charged := s.(gas := SatSub(s.gas, p.gasCost));
    assert !Exhausted(m.exec(p, charged));
    owed :| HasShortfall(m, p, charged, owed);
    forall d: nat {:trigger Refuel(s, d)} | s.gas + d < 0x1_0000_0000_0000_0000
      ensures var r := Step(m, s);
              Step(m, Refuel(s, d)) == SameEndWith(r, SatSub(r.st.gas + d, owed))
    {
      SameFetch(m, s, Refuel(s, d));
      assert Refuel(s, d).(gas := SatSub(Refuel(s, d).gas, p.gasCost)) == Refuel(charged, d);
    }
  }

  /** Fuel monotonicity: a run that halts does so with any larger amount of gas,
      in the same state; d more gas at the start leaves d more at the end, less
      one shortfall, which is 0 unless the run ended with no gas at all. */
  lemma {:induction false} MoreGasSameRun(m: Machine, s: State, k: nat) returns (owed: nat)
    requires GasTransparent(m) && Steps(m, s, k).Halted?
    ensures RunShortfall(m, s, k, Steps(m, s, k).st, owed)
    decreases k
  {
    hide GasTransparent, Step, SatSub;
    var r := Step(m, s);
    owed := StepShortfall(m, s);
    if r.Continue? {
      var rest := MoreGasSameRun(m, r.st, k - 1);
      var first := owed;
      forall d: nat {:trigger Refuel(s, d)} | s.gas + d < 0x1_0000_0000_0000_0000
        ensures Steps(m, Refuel(s, d), k)
             == Halted(Steps(m, s, k).st.(gas := SatSub(Steps(m, s, k).st.gas + d, first + rest)))
      {
        var left := SatSub(r.st.gas + d, first);
        var d' := if first == 0 then d else left;
        SatSubFacts(r.st.gas, d, first, rest, Steps(m, s, k).st.gas);
        assert Step(m, Refuel(s, d)) == SameEndWith(r, left);
        assert Refuel(r.st, d') == r.st.(gas := left);
        assert Steps(m, Refuel(r.st, d'), k - 1)
            == Halted(Steps(m, s, k).st.(gas := SatSub(Steps(m, s, k).st.gas + d', rest)));
      }
      owed := first + rest;
    }
  }

  lemma SatSubFacts(g: u64, d: nat, first: u64, rest: u64, end: u64)
    requires g + d < 0x1_0000_0000_0000_0000 && end <= g
    requires first > 0 ==> g == 0
    requires rest > 0 ==> g > 0 && end == 0
    ensures var d' := if first == 0 then d else SatSub(g + d, first);
            && Wrap64(g + d') == SatSub(g + d, first)
            && d' <= d && end + d' < 0x1_0000_0000_0000_0000
            && SatSub(end + d', rest) == SatSub(end + d, first + rest)
  {
  }

  /** A run that ends with gas to spare has no shortfall. */
  lemma SpareGasIsKept(m: Machine, s: State, k: nat, d: nat)
    requires GasTransparent(m) && Steps(m, s, k).Halted? && Steps(m, s, k).st.gas > 0
    requires s.gas + d < 0x1_0000_0000_0000_0000
    ensures var f := Steps(m, s, k).st;
            f.gas <= s.gas && Steps(m, Refuel(s, d), k) == Halted(f.(gas := f.gas + d))
  {
    hide GasTransparent;
    var owed := MoreGasSameRun(m, s, k);
    assert Steps(m, Refuel(s, d), k) == Halted(Steps(m, s, k).st.(gas := SatSub(Steps(m, s, k).st.gas + d, owed)));
  }

  // ---------- gas does not show ----------

  predicate OutOfGasOutcome(r: Outcome) {
    r.Failed? && r.error == OutOfGas
  }

  predicate SameOutcome(a: Outcome, b: Outcome) {
    && SameButGas(a.st, b.st)
    && a.Continue? == b.Continue? && a.Halted? == b.Halted?
    && (a.Failed? && b.Failed? ==> a.error == b.error)
  }

  lemma StepsAlike(m: Machine, s: State, t: State)
    requires GasTransparent(m) && SameButGas(s, t)
    requires !OutOfGasOutcome(Step(m, s)) && !OutOfGasOutcome(Step(m, t))
    ensures SameOutcome(Step(m, s), Step(m, t))
  {
    var d := m.decode(s, s.cpu.eip, InWriteable(s.cpu.eip), DEFAULT_SLOT);
    assert d == m.decode(t, s.cpu.eip, InWriteable(s.cpu.eip), DEFAULT_SLOT);
    if d.Ok? {
      var p := d.value.slot;
      RunsAlike(m, p, p, s, t);
    }
  }

  lemma RunsAlike(m: Machine, p: Slot, q: Slot, s: State, t: State)
    requires GasTransparent(m) && SameButGas(s, t) && p == q
    requires !OutOfGasOutcome(RunSlot(m, p, s)) && !OutOfGasOutcome(RunSlot(m, q, t))
    ensures SameOutcome(RunSlot(m, p, s), RunSlot(m, q, t))
  {
    hide DecodesGasBlind, MoreLastsLonger, Resumes, GasElastic;
    var s' := s.(gas := SatSub(s.gas, p.gasCost));
    var t' := t.(gas := SatSub(t.gas, p.gasCost));
    assert SameButGas(s', t');
    assert Agree(m.exec(p, s'), m.exec(p, t'));
  }

  /** Two halting runs from states equal up to gas halt in states equal up to gas. */
  lemma {:induction false} HaltingRunsAgree(m: Machine, s: State, t: State, k: nat, l: nat)
    requires GasTransparent(m) && SameButGas(s, t)
    requires Steps(m, s, k).Halted? && Steps(m, t, l).Halted?
    ensures SameButGas(Steps(m, s, k).st, Steps(m, t, l).st)
    decreases k
  {
    hide GasTransparent, Step;
    StepsAlike(m, s, t);
    if Step(m, s).Continue? {
      HaltingRunsAgree(m, Step(m, s).st, Step(m, t).st, k - 1, l - 1);
    }
  }

  /** With more gas a step lasts at least as long. */
  lemma StepLasts(m: Machine, s: State, t: State)
    requires GasTransparent(m) && SameButGas(s, t) && s.gas <= t.gas && !OutOfGasOutcome(Step(m, s))
    ensures !OutOfGasOutcome(Step(m, t)) && Step(m, s).st.gas <= Step(m, t).st.gas
    ensures Step(m, s).st.gas <= s.gas
  {
    hide ExecutesGasBlind, Resumes, GasElastic;
    var eip, w := s.cpu.eip, InWriteable(s.cpu.eip);
    var d := m.decode(s, eip, w, DEFAULT_SLOT);
    assert d == m.decode(t, eip, w, DEFAULT_SLOT);
    if d.Ok? {
      var p := d.value.slot;
      var s', t' := s.(gas := SatSub(s.gas, p.gasCost)), t.(gas := SatSub(t.gas, p.gasCost));
      assert SameButGas(s', t') && s'.gas <= t'.gas;
      assert LastsAsLong(m.exec(p, s'), m.exec(p, t'));
      assert Left(m.exec(p, s')).gas <= s'.gas;
    }
  }

  /** A run that halts does so in the same number of steps with more gas. */
  lemma {:induction false} HaltsWithMore(m: Machine, s: State, t: State, k: nat)
    requires GasTransparent(m) && SameButGas(s, t) && s.gas <= t.gas && Steps(m, s, k).Halted?
    ensures Steps(m, t, k).Halted? && SameButGas(Steps(m, s, k).st, Steps(m, t, k).st)
    decreases k
  {
    hide GasTransparent, Step;
    StepLasts(m, s, t);
    StepsAlike(m, s, t);
    if Step(m, s).Continue? {
      HaltsWithMore(m, Step(m, s).st, Step(m, t).st, k - 1);
    }
  }

  // ---------- stopping and going on ----------

  /** The instruction at which `x` stopped is still the one fetched there. */
  ghost predicate RefetchesSame(m: Machine, u: State, x: State) {
    m.decode(u, x.cpu.eip, InWriteable(x.cpu.eip), DEFAULT_SLOT)
    == m.decode(x, x.cpu.eip, InWriteable(x.cpu.eip), DEFAULT_SLOT)
  }

  lemma ResumedExec(m: Machine, p: Slot, u: State, t: State, y: State)
    requires GasTransparent(m) && Exhausted(m.exec(p, u)) && SameButGas(u, t) && SameButGas(m.exec(p, u).st, y)
    requires t.gas <= y.gas && !Exhausted(m.exec(p, t))
    ensures m.exec(p, u).st.cpu.eip == u.cpu.eip
    ensures !Exhausted(m.exec(p, y)) && Agree(m.exec(p, y), m.exec(p, t)) && Left(m.exec(p, t)).gas <= Left(m.exec(p, y)).gas
  {
    hide DecodesGasBlind, ExecutesGasBlind, MoreLastsLonger, GasElastic, Agree;
    assert LastsAsLong(m.exec(p, t), m.exec(p, y));
  }

  /** The step that ran out of gas, taken again from where it stopped with as
      much gas as the uninterrupted step has. */
  lemma ResumedStep(m: Machine, u: State, t: State, y: State)
    requires GasTransparent(m) && FailsOrdinarily(m) && SameButGas(u, t)
    requires OutOfGasOutcome(Step(m, u)) && SameButGas(Step(m, u).st, y) && RefetchesSame(m, u, Step(m, u).st)
    requires !OutOfGasOutcome(Step(m, t)) && t.gas <= y.gas
    ensures !OutOfGasOutcome(Step(m, y)) && SameOutcome(Step(m, t), Step(m, y))
    ensures Step(m, t).st.gas <= Step(m, y).st.gas
  {
    hide ExecutesGasBlind, MoreLastsLonger, Resumes, GasElastic, FailsOrdinarily;
    DecodedBeforeRunning(m, u);
    var x := Step(m, u).st;
    var eip, w := u.cpu.eip, InWriteable(u.cpu.eip);
    var p := m.decode(u, eip, w, DEFAULT_SLOT).value.slot;
    assert m.decode(t, eip, w, DEFAULT_SLOT) == m.decode(u, eip, w, DEFAULT_SLOT);
    if u.gas < p.gasCost {
      hide GasTransparent;
      StepLasts(m, t, y);
      StepsAlike(m, t, y);
    } else {
      var u' := u.(gas := SatSub(u.gas, p.gasCost));
      var t' := t.(gas := SatSub(t.gas, p.gasCost));
      var y' := y.(gas := SatSub(y.gas, p.gasCost));
      ResumedExec(m, p, u', t', y');
      assert x.cpu.eip == eip;
      assert m.decode(y, eip, w, DEFAULT_SLOT) == m.decode(x, eip, w, DEFAULT_SLOT);
    }
  }

  lemma ResumedEffect(m: Machine, p: Slot, u: State, t: State, y: State)
    requires Resumes(m) && Exhausted(m.exec(p, u)) && SameButGas(u, t) && SameButGas(m.exec(p, u).st, y)
    ensures m.exec(p, u).st.cpu.eip == u.cpu.eip
    ensures Exhausted(m.exec(p, y)) || Exhausted(m.exec(p, t)) || Agree(m.exec(p, y), m.exec(p, t))
  {
  }

  /** The same step with whatever gas it lasts on. */
  lemma ResumedStepAgrees(m: Machine, u: State, t: State, y: State)
    requires GasTransparent(m) && FailsOrdinarily(m) && SameButGas(u, t)
    requires OutOfGasOutcome(Step(m, u)) && SameButGas(Step(m, u).st, y) && RefetchesSame(m, u, Step(m, u).st)
    requires !OutOfGasOutcome(Step(m, t)) && !OutOfGasOutcome(Step(m, y))
    ensures SameOutcome(Step(m, t), Step(m, y))
  {
    hide ExecutesGasBlind, MoreLastsLonger, Resumes, GasElastic, FailsOrdinarily;
    DecodedBeforeRunning(m, u);
    var x := Step(m, u).st;
    var eip, w := u.cpu.eip, InWriteable(u.cpu.eip);
    var p := m.decode(u, eip, w, DEFAULT_SLOT).value.slot;
    assert m.decode(t, eip, w, DEFAULT_SLOT) == m.decode(u, eip, w, DEFAULT_SLOT);
    if u.gas < p.gasCost {
      hide GasTransparent;
      StepsAlike(m, t, y);
    } else {
      var u' := u.(gas := SatSub(u.gas, p.gasCost));
      var t' := t.(gas := SatSub(t.gas, p.gasCost));
      var y' := y.(gas := SatSub(y.gas, p.gasCost));
      ResumedEffect(m, p, u', t', y');
      assert m.decode(y, eip, w, DEFAULT_SLOT) == m.decode(x, eip, w, DEFAULT_SLOT);
    }
  }

  /** A run stopped by OutOfGas and refuelled with at least what an uninterrupted
      run has left at that point halts if that one halts, in the same state up to
      gas, as long as the interrupted instruction is still fetched as it was. */
  lemma {:induction false} ResumeAfterOutOfGas(m: Machine, s: State, t: State, y: State, k: nat, l: nat) returns (j: nat)
    requires GasTransparent(m) && FailsOrdinarily(m) && SameButGas(s, t)
    requires k > 0 && Steps(m, s, k - 1).Continue? && OutOfGasOutcome(Steps(m, s, k))
    requires RefetchesSame(m, Steps(m, s, k - 1).st, Steps(m, s, k).st)
    requires SameButGas(Steps(m, s, k).st, y)
    requires Steps(m, t, l).Halted?
    requires Steps(m, t, k - 1).Continue? ==> Steps(m, t, k - 1).st.gas <= y.gas
    ensures Steps(m, y, j).Halted? && SameButGas(Steps(m, t, l).st, Steps(m, y, j).st)
    decreases k
  {
    hide GasTransparent, Step, FailsOrdinarily, RefetchesSame;
    if k == 1 {
      assert Steps(m, s, 1) == Step(m, s);
      ResumedStep(m, s, t, y);
      j := l;
      if Step(m, t).Continue? {
        HaltsWithMore(m, Step(m, t).st, Step(m, y).st, l - 1);
      }
    } else {
      StepsAlike(m, s, t);
      j := ResumeAfterOutOfGas(m, Step(m, s).st, Step(m, t).st, y, k - 1, l - 1);
    }
  }

  /** What a halting run and another one from the same state up to gas can end in. */
  lemma {:induction false} HaltsOrRunsOut(m: Machine, s: State, t: State, k: nat, l: nat)
    requires GasTransparent(m) && SameButGas(s, t)
    requires Steps(m, s, k).Halted? && !Steps(m, t, l).Continue? && !OutOfGasOutcome(Steps(m, t, l))
    ensures Steps(m, t, l).Halted? && SameButGas(Steps(m, s, k).st, Steps(m, t, l).st)
    decreases k
  {
    hide GasTransparent, Step;
    StepsAlike(m, s, t);
    if Step(m, s).Continue? {
      HaltsOrRunsOut(m, Step(m, s).st, Step(m, t).st, k - 1, l - 1);
    }
  }

  /** With any refuel at all, the resumed run runs out of gas again or halts as the
      uninterrupted run does. */
  lemma {:induction false} ResumedEnds(m: Machine, s: State, t: State, y: State, k: nat, l: nat, j: nat)
    requires GasTransparent(m) && FailsOrdinarily(m) && SameButGas(s, t)
    requires k > 0 && Steps(m, s, k - 1).Continue? && OutOfGasOutcome(Steps(m, s, k))
    requires RefetchesSame(m, Steps(m, s, k - 1).st, Steps(m, s, k).st)
    requires SameButGas(Steps(m, s, k).st, y)
    requires Steps(m, t, l).Halted? && !Steps(m, y, j).Continue? && !OutOfGasOutcome(Steps(m, y, j))
    ensures Steps(m, y, j).Halted? && SameButGas(Steps(m, t, l).st, Steps(m, y, j).st)
    decreases k
  {
    hide GasTransparent, Step, FailsOrdinarily, RefetchesSame;
    if k == 1 {
      assert Steps(m, s, 1) == Step(m, s);
      ResumedStepAgrees(m, s, t, y);
      if Step(m, t).Continue? {
        HaltsOrRunsOut(m, Step(m, t).st, Step(m, y).st, l - 1, j - 1);
      }
    } else {
      StepsAlike(m, s, t);
      ResumedEnds(m, Step(m, s).st, Step(m, t).st, y, k - 1, l - 1, j);
    }
  }

  lemma {:induction false} GasOnlyFalls(m: Machine, s: State, k: nat)
    requires GasTransparent(m) && Steps(m, s, k).Continue?
    ensures Steps(m, s, k).st.gas <= s.gas
    decreases k
  {
    hide GasTransparent, Step;
    if k > 0 {
      StepLasts(m, s, s);
      GasOnlyFalls(m, Step(m, s).st, k - 1);
    }
  }

  lemma DecodedBeforeRunning(m: Machine, s: State)
    requires FailsOrdinarily(m) && OutOfGasOutcome(Step(m, s))
    ensures m.decode(s, s.cpu.eip, InWriteable(s.cpu.eip), DEFAULT_SLOT).Ok?
  {
  }
}

// Whole runs: the number of pipeline cells does not show in what a program does.

module Runs {
  import Words
  import opened Errors
  import opened VMState
  import opened Fetch
  import opened Pipeline
  import opened Refinement

  /** `execute` with n cells ends with this outcome. */
  ghost predicate Executes(m: Machine, n: nat, s: State, r: Outcome) {
    !r.Continue? && exists c: nat :: Cycles(m, NewPipeline(n), s, c) == r
  }

  /** One-at-a-time execution ends with this outcome. */
  ghost predicate StepsTo(m: Machine, s: State, r: Outcome) {
    !r.Continue? && exists k: nat :: Steps(m, s, k) == r
  }

  // ---------- steps compose, and end at most once ----------

  lemma {:induction false} StepsCompose(m: Machine, s: State, a: nat, b: nat)
    ensures Steps(m, s, a + b) ==
            if Steps(m, s, a).Continue? then Steps(m, Steps(m, s, a).st, b) else Steps(m, s, a)
    decreases a
  {
    if a > 0 {
      var r := Step(m, s);
      if r.Continue? {
        StepsCompose(m, r.st, a - 1, b);
      }
    }
  }

  lemma StepsEndOnce(m: Machine, s: State, a: nat, b: nat)
    requires !Steps(m, s, a).Continue? && !Steps(m, s, b).Continue?
    ensures Steps(m, s, a) == Steps(m, s, b)
  {
    if a <= b {
      StepsCompose(m, s, a, b - a);
    } else {
      StepsCompose(m, s, b, a - b);
    }
  }

  lemma {:induction false} StepsFrozen(m: Machine, s: State, k: nat)
    requires KeepsFrozen(m)
    ensures Frozen(s, Steps(m, s, k).st)
    decreases k
  {
    if k > 0 {
      var r := Step(m, s);
      StepFrozen(m, s);
      if r.Continue? {
        StepsFrozen(m, r.st, k - 1);
        FrozenTransitive(s, r.st, Steps(m, r.st, k - 1).st);
      }
    }
  }

  // ---------- from cycles to steps ----------

  /** An outcome of cycles is the same outcome of steps, except that a failure
      other than the end of the gas may be a different such failure. */
  ghost predicate Matches(cycles: Outcome, steps: Outcome) {
    if Breaks(cycles) then Breaks(steps) else cycles == steps
  }

  /** A cycle that goes on leaves a program that is still sound. */
  lemma CycleGoesOn(m: Machine, prev: seq<Slot>, s: State)
    requires Conforms(m) && SoundProgram(m, s, |prev|) && prev != []
    requires Fill(m, s, prev).Ok? && Cycle(m, prev, s).Continue?
    ensures SoundProgram(m, Cycle(m, prev, s).st, |prev|)
  {
    hide Fill, Cycle, Conforms, SoundFrom, FillTrace, Step, LooksAtArgs;
    if !InWriteable(s.cpu.eip) { SoundNow(m, s, |prev|); }
    CycleIsSteps(m, prev, s);
    var k := |CycleTrace(m, s, prev)|;
    var t := Cycle(m, prev, s).st;
    forall l: nat | Steps(m, t, l).Continue? && !InWriteable(Steps(m, t, l).st.cpu.eip)
      ensures SoundFrom(m, Steps(m, t, l).st, Steps(m, t, l).st, |prev|)
    {
      StepsCompose(m, s, k, l);
    }
  }

  lemma {:induction false} CyclesAreSteps(m: Machine, prev: seq<Slot>, s: State, c: nat) returns (k: nat)
    requires Conforms(m) && SoundProgram(m, s, |prev|) && prev != []
    ensures Matches(Cycles(m, prev, s, c), Steps(m, s, k))
    ensures Cycles(m, prev, s, c).Continue? ==> k >= c
    decreases c
  {
    hide Fill, Cycle, CycleTrace, Conforms, SoundProgram, Step;
    if c == 0 {
      k := 0;
    } else {
      if !InWriteable(s.cpu.eip) { SoundNow(m, s, |prev|); }
      CycleIsSteps(m, prev, s);
      var k1 := |CycleTrace(m, s, prev)|;
      var r := Cycle(m, prev, s);
      var filled := Fill(m, s, prev);
      if filled.Err? {
        k := k1 + 1;
      } else if !r.Continue? {
        k := k1;
      } else {
        CycleGoesOn(m, prev, s);
        var k2 := CyclesAreSteps(m, filled.value, r.st, c - 1);
        StepsCompose(m, s, k1, k2);
        k := k1 + k2;
      }
    }
  }

  // ---------- from steps to cycles ----------

  lemma {:induction false} StepsAreCycles(m: Machine, prev: seq<Slot>, s: State, k: nat) returns (c: nat)
    requires Conforms(m) && SoundProgram(m, s, |prev|) && prev != []
    requires !Steps(m, s, k).Continue?
    ensures c <= k && !Cycles(m, prev, s, c).Continue?
    ensures Matches(Cycles(m, prev, s, c), Steps(m, s, k))
    decreases k
  {
    hide Fill, Cycle, CycleTrace, Conforms, SoundProgram, Step;
    if !InWriteable(s.cpu.eip) { SoundNow(m, s, |prev|); }
    CycleIsSteps(m, prev, s);
    var k1 := |CycleTrace(m, s, prev)|;
    var r := Cycle(m, prev, s);
    var filled := Fill(m, s, prev);
    if filled.Err? {
      StepsEndOnce(m, s, k, k1 + 1);
      c := 1;
      assert Cycles(m, prev, s, 1) == r;
    } else if !r.Continue? {
      StepsEndOnce(m, s, k, k1);
      c := 1;
      assert Cycles(m, prev, s, 1) == r;
    } else {
      if k <= k1 {
        StepsCompose(m, s, k, k1 - k);
        assert false;
      }
      StepsCompose(m, s, k1, k - k1);
      CycleGoesOn(m, prev, s);
      var c2 := StepsAreCycles(m, filled.value, r.st, k - k1);
      c := c2 + 1;
      assert Cycles(m, prev, s, c) == Cycles(m, filled.value, r.st, c2);
    }
  }

  /** A pipeline of any length ends as the reference does: it halts in the same
      state, runs out of gas in the same state, or breaks when the reference breaks. */
  lemma ExecuteIsReference(m: Machine, n: nat, s: State)
    requires Conforms(m) && SoundProgram(m, s, n) && n >= 1
    ensures forall r :: !Breaks(r) ==> (Executes(m, n, s, r) <==> StepsTo(m, s, r))
    ensures (exists r :: Breaks(r) && Executes(m, n, s, r)) <==> (exists r :: Breaks(r) && StepsTo(m, s, r))
  {
    forall r | Executes(m, n, s, r)
      ensures if Breaks(r) then exists r' :: Breaks(r') && StepsTo(m, s, r') else StepsTo(m, s, r)
    {
      var c: nat :| Cycles(m, NewPipeline(n), s, c) == r;
      var k := CyclesAreSteps(m, NewPipeline(n), s, c);
      assert StepsTo(m, s, Steps(m, s, k));
    }
    forall r | StepsTo(m, s, r)
      ensures if Breaks(r) then exists r' :: Breaks(r') && Executes(m, n, s, r') else Executes(m, n, s, r)
    {
      var k: nat :| Steps(m, s, k) == r;
      var c := StepsAreCycles(m, NewPipeline(n), s, k);
      assert Executes(m, n, s, Cycles(m, NewPipeline(n), s, c));
    }
  }

  /** Main result: the pipeline length does not affect the results of the VM. */
  lemma PipelineLengthIndependence(m: Machine, n: nat, n': nat, s: State)
    requires Conforms(m) && SoundProgram(m, s, n) && SoundProgram(m, s, n') && n >= 1 && n' >= 1
    ensures forall r :: !Breaks(r) ==> (Executes(m, n, s, r) <==> Executes(m, n', s, r))
    ensures (exists r :: Breaks(r) && Executes(m, n, s, r)) <==> (exists r :: Breaks(r) && Executes(m, n', s, r))
  {
    ExecuteIsReference(m, n, s);
    ExecuteIsReference(m, n', s);
  }

  // ---------- a run has one outcome ----------

  lemma {:induction false} CyclesStop(m: Machine, prev: seq<Slot>, s: State, a: nat, b: nat)
    requires a <= b && !Cycles(m, prev, s, a).Continue?
    ensures Cycles(m, prev, s, b) == Cycles(m, prev, s, a)
    decreases a
  {
    hide FillFrom, RunSlots;
    var r := Cycle(m, prev, s);
    if r.Continue? {
      CyclesStop(m, Fill(m, s, prev).value, r.st, a - 1, b - 1);
    }
  }

  lemma OnlyOutcome(m: Machine, n: nat, s: State, c: nat)
    requires !Cycles(m, NewPipeline(n), s, c).Continue?
    ensures forall r :: Executes(m, n, s, r) <==> r == Cycles(m, NewPipeline(n), s, c)
  {
    hide Cycles;
    forall r | Executes(m, n, s, r)
      ensures r == Cycles(m, NewPipeline(n), s, c)
    {
      var d: nat :| Cycles(m, NewPipeline(n), s, d) == r;
      if c <= d {
        CyclesStop(m, NewPipeline(n), s, c, d);
      } else {
        CyclesStop(m, NewPipeline(n), s, d, c);
      }
    }
  }

  // ---------- one cell ----------

  /** A cycle of one cell is a step. */
  lemma OneCell(m: Machine, prev: seq<Slot>, s: State)
    requires |prev| == 1
    ensures Cycle(m, prev, s) == Step(m, s)
  {
    hide RunSlot;
    var d := m.decode(s, s.cpu.eip, InWriteable(s.cpu.eip), DEFAULT_SLOT);
    assert Cleared(prev) == [DEFAULT_SLOT];
    if d.Ok? {
      var d := d.value;
      var left := Words.SatSub(s.gas, d.slot.gasCost);
      assert FillFrom(m, s, d.next, left, d.stop || left == 0, InWriteable(s.cpu.eip), []) == Ok([]);
      assert [d.slot] + [] == [d.slot] && [DEFAULT_SLOT][1..] == [];
      assert Fill(m, s, prev) == Ok([d.slot]);
      assert [d.slot][1..] == [];
      assert forall t :: RunSlots(m, [], t) == Continue(t);
    }
  }

  /** The reference machine is the pipeline of one cell, whatever the program. */
  lemma {:induction false} OneCellIsReference(m: Machine, prev: seq<Slot>, s: State, c: nat)
    requires |prev| == 1
    ensures Cycles(m, prev, s, c) == Steps(m, s, c)
    decreases c
  {
    hide FillFrom, Cleared, RunSlots, Step;
    if c > 0 {
      OneCell(m, prev, s);
      var r := Cycle(m, prev, s);
      if r.Continue? {
        OneCellIsReference(m, Fill(m, s, prev).value, r.st, c - 1);
      }
    }
  }
}

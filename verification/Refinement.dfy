// Decoding ahead and running blind does what one-at-a-time execution does.

module Refinement {
  import opened Words
  import opened Errors
  import Memory
  import opened VMState
  import opened Opcodes
  import opened Fetch
  import opened Pipeline

  // ---------- what is asked of a machine ----------

  /** What no instruction changes: read-only memory, the shape of the memory, and the gas schedule. */
  ghost predicate Frozen(s: State, t: State) {
    Memory.Preserves(s.cpu.mem, t.cpu.mem) && t.costs == s.costs
  }

  function Left(e: Effect<State, State>): State {
    if e.Done? then e.value else e.st
  }

  ghost predicate KeepsFrozen(m: Machine) {
    forall p: Slot, s: State :: Frozen(s, Left(m.exec(p, s)))
  }

  /** Below 0x80000000, decoding depends on frozen parts of the state only. */
  ghost predicate DecodesFromFrozen(m: Machine) {
    forall s: State, t: State, eip: u32, p: Slot :: Frozen(s, t) && !InWriteable(eip) ==>
      m.decode(s, eip, false, p) == m.decode(t, eip, false, p)
  }

  predicate IsRep(p: Slot) {
    p.op == Repe || p.op == Repne
  }

  /** The same slot, up to the arguments a rep prefix leaves untouched. */
  ghost predicate Alike(a: Result<Decoded>, b: Result<Decoded>) {
    if a.Err? || b.Err? then a == b
    else
      && a.value.next == b.value.next && a.value.stop == b.value.stop
      && (a.value.slot == b.value.slot
          || (IsRep(a.value.slot) && a.value.slot.(args := b.value.slot.args) == b.value.slot))
  }

  /** What the cell held before shows only in the arguments of a rep slot. */
  ghost predicate ForgetsHistory(m: Machine) {
    forall s: State, eip: u32, w: bool, a: Slot, b: Slot ::
      Alike(m.decode(s, eip, w, a), m.decode(s, eip, w, b))
  }

  /** In writable memory every instruction ends the filling. */
  ghost predicate StopsInWriteable(m: Machine) {
    forall s: State, eip: u32, p: Slot ::
      m.decode(s, eip, true, p).Ok? ==> m.decode(s, eip, true, p).value.stop
  }

  /** An instruction the decoder reads past: it goes where the decoder went on
      reading, and touches neither gas nor anything frozen. */
  ghost predicate AsPredicted(d: Decoded, t: State, e: Effect<State, State>) {
    match e
    case Done(u) => Wrap32(u.cpu.eip + d.slot.eipSize) == d.next && u.gas == t.gas
    case Raised(_, error) => error.Ordinary()
  }

  ghost predicate FollowsPredictions(m: Machine) {
    forall s: State, t: State, eip: u32, p: Slot ::
      var d := m.decode(s, eip, false, p);
      d.Ok? && !d.value.stop && t.cpu.eip == eip ==> AsPredicted(d.value, t, m.exec(d.value.slot, t))
  }

  ghost predicate FailsOrdinarily(m: Machine) {
    forall s: State, eip: u32, w: bool, p: Slot ::
      m.decode(s, eip, w, p).Err? ==> m.decode(s, eip, w, p).error.Ordinary()
  }

  ghost predicate NopsDoNothing(m: Machine) {
    forall p: Slot, s: State :: p.op == Nop ==> m.exec(p, s) == Done(s)
  }

  ghost predicate Conforms(m: Machine) {
    && KeepsFrozen(m) && DecodesFromFrozen(m) && ForgetsHistory(m) && StopsInWriteable(m)
    && FollowsPredictions(m) && FailsOrdinarily(m) && NopsDoNothing(m)
  }

  // ---------- what is asked of a program ----------

  /** Fails for a reason other than the end of the gas. */
  ghost predicate Breaks(r: Outcome) {
    r.Failed? && r.error.Ordinary()
  }

  ghost predicate IgnoresArgs(m: Machine, p: Slot) {
    forall a, t: State :: m.exec(p.(args := a), t) == m.exec(p, t)
  }

  predicate BothFail(e: Effect<State, State>, f: Effect<State, State>) {
    e.Raised? && e.error.Ordinary() && f.Raised? && f.error.Ordinary()
  }

  /** Other arguments change at most how the instruction fails. */
  ghost predicate ForgivesArgs(m: Machine, p: Slot) {
    forall a, t: State :: m.exec(p.(args := a), t) == m.exec(p, t) || BothFail(m.exec(p.(args := a), t), m.exec(p, t))
  }

  /** Some rep among the cells depends on arguments that decoding has not set. */
  ghost predicate LooksAtArgs(m: Machine, slots: seq<Slot>) {
    exists i :: 0 <= i < |slots| && IsRep(slots[i]) && !IgnoresArgs(m, slots[i])
  }

  /** A slot decoded in `s0` for the next instruction of `s`, as it would be below
      0x80000000, runs as what `s` fetches on the spot, except that a rep that looks
      at its arguments may fail in another way. */
  ghost predicate FetchHolds(m: Machine, s0: State, s: State) {
    forall p: Slot ::
      var d := m.decode(s0, s.cpu.eip, false, p);
      if d.Err? then Step(m, s) == Failed(s, d.error) && d.error.Ordinary()
      else
        || Step(m, s) == RunSlot(m, d.value.slot, s)
        || (Breaks(Step(m, s)) && Breaks(RunSlot(m, d.value.slot, s)) && LooksAtArgs(m, [d.value.slot]))
  }

  /** A decoder that works in `s0` reads past the instruction that `s` is at. */
  ghost predicate ReadsPast(m: Machine, s0: State, s: State) {
    var d := m.decode(s0, s.cpu.eip, false, DEFAULT_SLOT);
    d.Ok? && !d.value.stop
  }

  /** Reading ahead in `s0` over what the reference executes from `s` on. */
  ghost predicate ReadsAhead(m: Machine, s0: State, s: State, i: nat) {
    forall j: nat :: j < i && Steps(m, s, j).Continue? ==> ReadsPast(m, s0, Steps(m, s, j).st)
  }

  /** Wherever the decoder can get by reading ahead with n cells, what it reads
      there is what the reference fetches when it gets there. */
  ghost predicate SoundFrom(m: Machine, s0: State, s: State, n: nat) {
    forall i: nat :: i < n && Steps(m, s, i).Continue? && ReadsAhead(m, s0, s, i) ==> FetchHolds(m, s0, Steps(m, s, i).st)
  }

  /** That holds from every read-only address one-at-a-time execution reaches. */
  ghost predicate SoundProgram(m: Machine, s: State, n: nat) {
    forall k: nat :: Steps(m, s, k).Continue? && !InWriteable(Steps(m, s, k).st.cpu.eip) ==>
      SoundFrom(m, Steps(m, s, k).st, Steps(m, s, k).st, n)
  }

  lemma SoundNow(m: Machine, s: State, n: nat)
    requires SoundProgram(m, s, n) && !InWriteable(s.cpu.eip)
    ensures SoundFrom(m, s, s, n)
  {
    assert Steps(m, s, 0) == Continue(s);
  }

  lemma FetchHoldsNow(m: Machine, s0: State, s: State, n: nat)
    requires SoundFrom(m, s0, s, n) && n > 0
    ensures FetchHolds(m, s0, s)
  {
    hide FetchHolds;
    assert Steps(m, s, 0) == Continue(s);
    assert ReadsAhead(m, s0, s, 0);
  }

  lemma ReadsAheadAfterStep(m: Machine, s0: State, s: State, i: nat)
    requires ReadsPast(m, s0, s) && Step(m, s).Continue? && ReadsAhead(m, s0, Step(m, s).st, i)
    ensures ReadsAhead(m, s0, s, i + 1)
  {
    hide ReadsPast, Step;
    forall j: nat | j < i + 1 && Steps(m, s, j).Continue?
      ensures ReadsPast(m, s0, Steps(m, s, j).st)
    {
      if j == 0 {
        assert Steps(m, s, 0) == Continue(s);
      } else {
        FirstStep(m, s, j - 1);
      }
    }
  }

  lemma SoundAfterStep(m: Machine, s0: State, s: State, n: nat)
    requires SoundFrom(m, s0, s, n + 1) && ReadsPast(m, s0, s) && Step(m, s).Continue?
    ensures SoundFrom(m, s0, Step(m, s).st, n)
  {
    hide FetchHolds, ReadsPast, ReadsAhead, Step;
    var t := Step(m, s).st;
    forall i: nat | i < n && Steps(m, t, i).Continue? && ReadsAhead(m, s0, t, i)
      ensures FetchHolds(m, s0, Steps(m, t, i).st)
    {
      FirstStep(m, s, i);
      ReadsAheadAfterStep(m, s0, s, i);
    }
  }

  lemma FirstStep(m: Machine, s: State, k: nat)
    ensures Steps(m, s, k + 1) == if Step(m, s).Continue? then Steps(m, Step(m, s).st, k) else Step(m, s)
  {
  }

  // ---------- whole runs keep what is frozen ----------

  lemma FrozenTransitive(s: State, t: State, u: State)
    requires Frozen(s, t) && Frozen(t, u)
    ensures Frozen(s, u)
  {
  }

  lemma {:induction false} RunSlotsFrozen(m: Machine, slots: seq<Slot>, s: State)
    requires KeepsFrozen(m)
    ensures Frozen(s, RunSlots(m, slots, s).st)
    decreases slots
  {
    if slots != [] {
      var r := RunSlot(m, slots[0], s);
      assert Frozen(s, r.st) by {
        var charged := s.(gas := SatSub(s.gas, slots[0].gasCost));
        assert Frozen(charged, Left(m.exec(slots[0], charged)));
      }
      if r.Continue? {
        RunSlotsFrozen(m, slots[1..], r.st);
        FrozenTransitive(s, r.st, RunSlots(m, slots[1..], r.st).st);
      }
    }
  }

  /** No run of any number of cycles changes a byte below 0x80000000, the set of
      blocks, the length of a block, or the gas schedule. */
  lemma {:induction false} CyclesKeepReadOnlyMemory(m: Machine, prev: seq<Slot>, s: State, n: nat)
    requires KeepsFrozen(m)
    ensures Frozen(s, Cycles(m, prev, s, n).st)
    decreases n
  {
    if n > 0 {
      var r := Cycle(m, prev, s);
      match Fill(m, s, prev) {
        case Err(_) =>
        case Ok(slots) =>
          RunSlotsFrozen(m, slots, s);
          if r.Continue? {
            CyclesKeepReadOnlyMemory(m, slots, r.st, n - 1);
            FrozenTransitive(s, r.st, Cycles(m, slots, r.st, n - 1).st);
          }
      }
    }
  }

  lemma StepFrozen(m: Machine, s: State)
    requires KeepsFrozen(m)
    ensures Frozen(s, Step(m, s).st)
  {
    var d := m.decode(s, s.cpu.eip, InWriteable(s.cpu.eip), DEFAULT_SLOT);
    if d.Ok? {
      RunSlotsFrozen(m, [d.value.slot], s);
    }
  }

  // ---------- one cycle against the reference ----------

  /** Where each decoded cell was read from, and the gas the decoder counted on there. */
  ghost function FillTrace(m: Machine, s: State, eip: u32, gas: u64, stop: bool, writeable: bool, prev: seq<Slot>)
    : seq<(u32, u64)>
    decreases prev
  {
    if prev == [] || stop then []
    else match m.decode(s, eip, writeable, prev[0])
      case Err(_) => []
      case Ok(d) =>
        var left := SatSub(gas, d.slot.gasCost);
        [(eip, gas)] + FillTrace(m, s, d.next, left, d.stop || left == 0, writeable, prev[1..])
  }

  ghost function CycleTrace(m: Machine, s: State, prev: seq<Slot>): seq<(u32, u64)> {
    FillTrace(m, s, s.cpu.eip, s.gas, false, InWriteable(s.cpu.eip), Cleared(prev))
  }

  /** Cells after the last decoded one are no-ops. */
  lemma {:induction false} StoppedFill(m: Machine, s: State, eip: u32, gas: u64, w: bool, prev: seq<Slot>, t: State)
    requires NopsDoNothing(m)
    ensures FillFrom(m, s, eip, gas, true, w, prev).Ok?
    ensures RunSlots(m, FillFrom(m, s, eip, gas, true, w, prev).value, t) == Continue(t)
    decreases prev
  {
    if prev != [] {
      StoppedFill(m, s, eip, gas, w, prev[1..], t);
      var rest := FillFrom(m, s, eip, gas, true, w, prev[1..]).value;
      assert RunSlot(m, Padding(prev[0]), t) == Continue(t);
      assert ([Padding(prev[0])] + rest)[1..] == rest;
    }
  }

  /** A slot the decoder read past leaves the state the decoder counted on. */
  lemma PredictedRun(m: Machine, s0: State, s: State, p: Slot)
    requires Conforms(m)
    requires var d := m.decode(s0, s.cpu.eip, false, p); d.Ok? && !d.value.stop
    ensures var d := m.decode(s0, s.cpu.eip, false, p).value;
            var r := RunSlot(m, d.slot, s);
            && !r.Halted?
            && (r.Continue? ==> r.st.cpu.eip == d.next && r.st.gas == SatSub(s.gas, d.slot.gasCost) && Frozen(s, r.st))
            && (r.Failed? ==> r.error.Ordinary() || s.gas < d.slot.gasCost)
  {
    var d := m.decode(s0, s.cpu.eip, false, p).value;
    var charged := s.(gas := SatSub(s.gas, d.slot.gasCost));
    assert AsPredicted(d, charged, m.exec(d.slot, charged));
    assert Frozen(charged, Left(m.exec(d.slot, charged)));
  }

  lemma ConformingNops(m: Machine)
    requires Conforms(m)
    ensures NopsDoNothing(m) && FailsOrdinarily(m)
  {
  }

  /** A cycle against a number of steps: the same outcome, or both break at a
      rep that looks at its arguments. */
  ghost predicate AgreesWith(m: Machine, slots: seq<Slot>, cycle: Outcome, steps: Outcome) {
    cycle == steps || (Breaks(cycle) && Breaks(steps) && LooksAtArgs(m, slots))
  }

  lemma LooksFurther(m: Machine, p: Slot, rest: seq<Slot>)
    ensures LooksAtArgs(m, [p]) || LooksAtArgs(m, rest) ==> LooksAtArgs(m, [p] + rest)
  {
    if LooksAtArgs(m, [p]) {
      assert ([p] + rest)[0] == p;
    } else if LooksAtArgs(m, rest) {
      var i :| 0 <= i < |rest| && IsRep(rest[i]) && !IgnoresArgs(m, rest[i]);
      assert ([p] + rest)[i + 1] == rest[i];
    }
  }

  /** Running the cells that were filled is taking as many reference steps; a cell
      that cannot be decoded is one the reference fails at, or before. */
  lemma {:induction false} FilledRunsAsSteps(m: Machine, s0: State, s: State, prev: seq<Slot>)
    requires Conforms(m) && SoundFrom(m, s0, s, |prev|)
    ensures var filled := FillFrom(m, s0, s.cpu.eip, s.gas, false, false, prev);
            var k := |FillTrace(m, s0, s.cpu.eip, s.gas, false, false, prev)|;
            if filled.Ok? then AgreesWith(m, filled.value, RunSlots(m, filled.value, s), Steps(m, s, k))
            else Breaks(Steps(m, s, k + 1))
    decreases prev
  {
    hide Conforms, SoundFrom, FetchHolds, ReadsPast, Frozen, RunSlot, Step, LooksAtArgs;
    if prev != [] {
      var d := m.decode(s0, s.cpu.eip, false, prev[0]);
      FetchHoldsNow(m, s0, s, |prev|);
      FetchedSlot(m, s0, s, prev[0]);
      if d.Err? {
        FirstStep(m, s, 0);
      } else {
        var d := d.value;
        var left := SatSub(s.gas, d.slot.gasCost);
        var r := RunSlot(m, d.slot, s);
        var stops := d.stop || left == 0;
        var rest := FillFrom(m, s0, d.next, left, stops, false, prev[1..]);
        var k := |FillTrace(m, s0, d.next, left, stops, false, prev[1..])|;
        if rest.Ok? {
          LooksFurther(m, d.slot, rest.value);
          assert ([d.slot] + rest.value)[1..] == rest.value;
        }
        FirstStep(m, s, k);
        if stops {
          assert NopsDoNothing(m) by { ConformingNops(m); }
          StoppedFill(m, s0, d.next, left, false, prev[1..], r.st);
          assert k == 0;
        } else {
          FirstStep(m, s, k + 1);
          PredictedRun(m, s0, s, prev[0]);
          if r.Continue? {
            ReadPastByAny(m, s0, s, prev[0]);
            SoundAfterStep(m, s0, s, |prev| - 1);
            FilledRunsAsSteps(m, s0, r.st, prev[1..]);
          }
        }
      }
    }
  }

  lemma FetchedSlot(m: Machine, s0: State, s: State, p: Slot)
    requires FetchHolds(m, s0, s)
    ensures var d := m.decode(s0, s.cpu.eip, false, p);
            if d.Err? then Step(m, s) == Failed(s, d.error) && d.error.Ordinary()
            else
              || Step(m, s) == RunSlot(m, d.value.slot, s)
              || (Breaks(Step(m, s)) && Breaks(RunSlot(m, d.value.slot, s)) && LooksAtArgs(m, [d.value.slot]))
  {
    hide Step, RunSlot, LooksAtArgs;
  }

  lemma ReadPastByAny(m: Machine, s0: State, s: State, p: Slot)
    requires Conforms(m)
    ensures var d := m.decode(s0, s.cpu.eip, false, p); d.Ok? && !d.value.stop ==> ReadsPast(m, s0, s)
  {
    assert Alike(m.decode(s0, s.cpu.eip, false, p), m.decode(s0, s.cpu.eip, false, DEFAULT_SLOT));
  }

  /** Main result on one cycle. When the fill succeeds, the cycle is exactly k
      reference steps, where k is the number of cells decoded, at least one and
      at most all, or both break at a rep that looks at its arguments; when it
      fails, nothing has run, and the reference fails within as many steps, with
      no early stop and no exhausted gas. */
  lemma CycleIsSteps(m: Machine, prev: seq<Slot>, s: State)
    requires Conforms(m) && prev != []
    requires !InWriteable(s.cpu.eip) ==> SoundFrom(m, s, s, |prev|)
    ensures var k := |CycleTrace(m, s, prev)|;
            var filled := Fill(m, s, prev);
            if filled.Ok? then
              1 <= k <= |prev| && AgreesWith(m, filled.value, Cycle(m, prev, s), Steps(m, s, k))
            else
              && k < |prev| && filled.error.Ordinary() && Cycle(m, prev, s) == Failed(s, filled.error)
              && Breaks(Steps(m, s, k + 1))
  {
    hide Conforms, SoundFrom, FillFrom, FillTrace, RunSlots, RunSlot, Step, Steps, LooksAtArgs;
    var cells := Cleared(prev);
    var w := InWriteable(s.cpu.eip);
    TraceLength(m, s, s.cpu.eip, s.gas, false, w, cells);
    if !w {
      FilledRunsAsSteps(m, s, s, cells);
      if Fill(m, s, prev).Ok? { TraceStarts(m, s, cells); }
    } else {
      WriteableCycle(m, s, cells);
    }
    if Fill(m, s, prev).Err? {
      assert FailsOrdinarily(m) by { ConformingNops(m); }
      FillFailsOrdinarily(m, s, s.cpu.eip, s.gas, false, w, cells);
    }
  }

  lemma FrozenItself(s: State)
    ensures Frozen(s, s)
  {
  }

  lemma TraceStarts(m: Machine, s: State, cells: seq<Slot>)
    requires cells != [] && FillFrom(m, s, s.cpu.eip, s.gas, false, InWriteable(s.cpu.eip), cells).Ok?
    ensures |FillTrace(m, s, s.cpu.eip, s.gas, false, InWriteable(s.cpu.eip), cells)| >= 1
  {
  }

  /** In writable memory a cycle is one step. */
  lemma WriteableCycle(m: Machine, s: State, cells: seq<Slot>)
    requires Conforms(m) && InWriteable(s.cpu.eip) && cells != [] && cells[0] == DEFAULT_SLOT
    ensures var filled := FillFrom(m, s, s.cpu.eip, s.gas, false, true, cells);
            var k := |FillTrace(m, s, s.cpu.eip, s.gas, false, true, cells)|;
            if filled.Ok? then k == 1 && RunSlots(m, filled.value, s) == Steps(m, s, 1)
            else k == 0 && Steps(m, s, 1) == Failed(s, filled.error) && filled.error.Ordinary()
  {
    hide RunSlot;
    var d := m.decode(s, s.cpu.eip, true, cells[0]);
    assert Steps(m, s, 1) == Step(m, s);
    if d.Ok? {
      var d := d.value;
      var left := SatSub(s.gas, d.slot.gasCost);
      var r := RunSlot(m, d.slot, s);
      StoppedFill(m, s, d.next, left, true, cells[1..], r.st);
      var rest := FillFrom(m, s, d.next, left, true, true, cells[1..]);
      assert ([d.slot] + rest.value)[1..] == rest.value;
      assert FillTrace(m, s, d.next, left, true, true, cells[1..]) == [];
    }
  }

  lemma {:induction false} FillFailsOrdinarily(m: Machine, s: State, eip: u32, gas: u64, stop: bool, w: bool, prev: seq<Slot>)
    requires FailsOrdinarily(m)
    requires FillFrom(m, s, eip, gas, stop, w, prev).Err?
    ensures FillFrom(m, s, eip, gas, stop, w, prev).error.Ordinary()
    decreases prev
  {
    if stop {
      FillFailsOrdinarily(m, s, eip, gas, true, w, prev[1..]);
    } else {
      var d := m.decode(s, eip, w, prev[0]);
      if d.Ok? {
        var left := SatSub(gas, d.value.slot.gasCost);
        FillFailsOrdinarily(m, s, d.value.next, left, d.value.stop || left == 0, w, prev[1..]);
      }
    }
  }

  lemma {:induction false} TraceLength(m: Machine, s: State, eip: u32, gas: u64, stop: bool, w: bool, prev: seq<Slot>)
    ensures var k := |FillTrace(m, s, eip, gas, stop, w, prev)|;
            k <= |prev| && (FillFrom(m, s, eip, gas, stop, w, prev).Err? ==> k < |prev|)
    decreases prev
  {
    if prev != [] {
      if stop {
        TraceLength(m, s, eip, gas, true, w, prev[1..]);
      } else {
        var d := m.decode(s, eip, w, prev[0]);
        if d.Ok? {
          var left := SatSub(gas, d.value.slot.gasCost);
          TraceLength(m, s, d.value.next, left, d.value.stop || left == 0, w, prev[1..]);
        }
      }
    }
  }

  // ---------- code that is fetched as it was decoded ----------

  /** The slot fetched in `s` is the one decoded ahead in `s0`. */
  ghost predicate FetchesSlot(m: Machine, s0: State, s: State) {
    var d := m.decode(s0, s.cpu.eip, false, DEFAULT_SLOT);
    var d' := m.decode(s, s.cpu.eip, InWriteable(s.cpu.eip), DEFAULT_SLOT);
    if d.Err? then d' == d
    else d'.Ok? && d'.value.slot == d.value.slot && (IsRep(d.value.slot) ==> ForgivesArgs(m, d.value.slot))
  }

  lemma SameSlotHolds(m: Machine, s0: State, s: State)
    requires ForgetsHistory(m) && FailsOrdinarily(m) && FetchesSlot(m, s0, s)
    ensures FetchHolds(m, s0, s)
  {
    hide RunSlot, LooksAtArgs, ForgivesArgs;
    var d' := m.decode(s0, s.cpu.eip, false, DEFAULT_SLOT);
    forall p: Slot
      ensures var d := m.decode(s0, s.cpu.eip, false, p);
              if d.Err? then Step(m, s) == Failed(s, d.error) && d.error.Ordinary()
              else
                || Step(m, s) == RunSlot(m, d.value.slot, s)
                || (Breaks(Step(m, s)) && Breaks(RunSlot(m, d.value.slot, s)) && LooksAtArgs(m, [d.value.slot]))
    {
      assert Alike(m.decode(s0, s.cpu.eip, false, p), d');
      var d := m.decode(s0, s.cpu.eip, false, p);
      if d.Ok? && d.value.slot != d'.value.slot {
        OtherArgs(m, d'.value.slot, d.value.slot, s);
      }
    }
  }

  lemma OtherArgs(m: Machine, p: Slot, q: Slot, s: State)
    requires IsRep(q) && ForgivesArgs(m, p) && p.(args := q.args) == q
    ensures RunSlot(m, p, s) == RunSlot(m, q, s)
            || (Breaks(RunSlot(m, p, s)) && Breaks(RunSlot(m, q, s)) && LooksAtArgs(m, [q]))
  {
    var charged := s.(gas := SatSub(s.gas, p.gasCost));
    assert q.(args := p.args) == p;
    assert m.exec(p.(args := q.args), charged) == m.exec(p, charged)
           || BothFail(m.exec(p.(args := q.args), charged), m.exec(p, charged));
    if IgnoresArgs(m, q) {
      assert m.exec(q.(args := p.args), charged) == m.exec(q, charged);
    } else {
      assert [q][0] == q;
      assert LooksAtArgs(m, [q]);
    }
  }

  // ---------- code that stays below 0x80000000 ----------

  /** The instruction about to run, when it is in read-only memory, does not lead
      into writable memory unless the decoder stops at it. */
  ghost predicate SoundAt(m: Machine, s: State) {
    !InWriteable(s.cpu.eip) ==>
      var d := m.decode(s, s.cpu.eip, false, DEFAULT_SLOT);
      d.Ok? && !d.value.stop ==> !InWriteable(d.value.next)
  }

  /** When every instruction the run reaches is such, reading ahead stays there. */
  lemma {:induction false} LowChain(m: Machine, s: State, i: nat)
    requires Conforms(m) && !InWriteable(s.cpu.eip)
    requires forall k: nat :: Steps(m, s, k).Continue? ==> SoundAt(m, Steps(m, s, k).st)
    requires Steps(m, s, i).Continue? && ReadsAhead(m, s, s, i)
    ensures !InWriteable(Steps(m, s, i).st.cpu.eip) && Frozen(s, Steps(m, s, i).st)
    decreases i
  {
    hide Conforms, SoundAt, ReadsPast, Step, Frozen;
    if i == 0 {
      FrozenItself(s);
    } else {
      OneMoreStep(m, s, i - 1);
      assert ReadsAhead(m, s, s, i - 1);
      LowChain(m, s, i - 1);
      var u := Steps(m, s, i - 1).st;
      assert ReadsPast(m, s, u);
      StaysLow(m, s, u);
      FrozenTransitive(s, u, Step(m, u).st);
    }
  }

  lemma StaysLow(m: Machine, s0: State, s: State)
    requires Conforms(m) && Frozen(s0, s) && SoundAt(m, s) && !InWriteable(s.cpu.eip)
    requires ReadsPast(m, s0, s) && Step(m, s).Continue?
    ensures !InWriteable(Step(m, s).st.cpu.eip) && Frozen(s, Step(m, s).st)
  {
    assert m.decode(s0, s.cpu.eip, false, DEFAULT_SLOT) == m.decode(s, s.cpu.eip, false, DEFAULT_SLOT);
    hide Conforms, RunSlot;
    PredictedRun(m, s, s, DEFAULT_SLOT);
  }

  lemma {:induction false} OneMoreStep(m: Machine, s: State, k: nat)
    requires Steps(m, s, k + 1).Continue?
    ensures Steps(m, s, k).Continue? && Step(m, Steps(m, s, k).st) == Steps(m, s, k + 1)
    decreases k
  {
    hide Step;
    FirstStep(m, s, k);
    var t := Step(m, s).st;
    if k == 0 {
      assert Steps(m, s, 0) == Continue(s) && Steps(m, t, 0) == Continue(t);
    } else {
      FirstStep(m, s, k - 1);
      OneMoreStep(m, t, k - 1);
    }
  }

  // ---------- what the array held before ----------

  /** The same in all that running a no-op or charging for a cell looks at. */
  predicate SameCell(p: Slot, q: Slot) {
    p.op == q.op && p.eipSize == q.eipSize && p.gasCost == q.gasCost
  }

  /** Two fills that agree cell by cell, and fully on the first k cells but for rep slots. */
  predicate SameFill(x: seq<Slot>, y: seq<Slot>, k: nat) {
    && |x| == |y|
    && (forall i :: 0 <= i < |x| ==> SameCell(x[i], y[i]))
    && (forall i :: 0 <= i < |x| && i < k && !IsRep(x[i]) ==> x[i] == y[i])
  }

  predicate SameResult(x: Result<seq<Slot>>, y: Result<seq<Slot>>, k: nat) {
    if x.Err? || y.Err? then x == y else SameFill(x.value, y.value, k)
  }

  lemma OneMoreCell(p: Slot, q: Slot, x: seq<Slot>, y: seq<Slot>, k: nat)
    requires SameFill(x, y, k)
    ensures SameCell(p, q) && (!IsRep(p) ==> p == q) ==> SameFill([p] + x, [q] + y, k + 1)
    ensures SameCell(p, q) && k == 0 ==> SameFill([p] + x, [q] + y, 0)
  {
  }

  lemma DecodedAlike(m: Machine, s: State, eip: u32, w: bool, p: Slot, q: Slot)
    requires ForgetsHistory(m)
    ensures var d, d' := m.decode(s, eip, w, p), m.decode(s, eip, w, q);
            if d.Err? || d'.Err? then d == d'
            else
              && d.value.next == d'.value.next && d.value.stop == d'.value.stop
              && SameCell(d.value.slot, d'.value.slot)
              && (!IsRep(d.value.slot) ==> d.value.slot == d'.value.slot)
  {
    assert Alike(m.decode(s, eip, w, p), m.decode(s, eip, w, q));
  }

  lemma {:induction false} FillFromForgets(m: Machine, s: State, eip: u32, gas: u64, stop: bool, w: bool,
                                           a: seq<Slot>, b: seq<Slot>)
    requires ForgetsHistory(m) && |a| == |b|
    ensures FillTrace(m, s, eip, gas, stop, w, a) == FillTrace(m, s, eip, gas, stop, w, b)
    ensures SameResult(FillFrom(m, s, eip, gas, stop, w, a), FillFrom(m, s, eip, gas, stop, w, b),
                       |FillTrace(m, s, eip, gas, stop, w, a)|)
    decreases |a|
  {
    hide ForgetsHistory, SameFill, IsRep;
    if a == [] {
      assert SameFill([], [], 0) by { NoCells(); }
    } else if stop {
      FillFromForgets(m, s, eip, gas, true, w, a[1..], b[1..]);
      var x, y := FillFrom(m, s, eip, gas, true, w, a[1..]), FillFrom(m, s, eip, gas, true, w, b[1..]);
      if x.Ok? {
        OneMoreCell(Padding(a[0]), Padding(b[0]), x.value, y.value, 0);
      }
    } else {
      DecodedAlike(m, s, eip, w, a[0], b[0]);
      var d, d' := m.decode(s, eip, w, a[0]), m.decode(s, eip, w, b[0]);
      if d.Ok? {
        var left := SatSub(gas, d.value.slot.gasCost);
        var stops := d.value.stop || left == 0;
        FillFromForgets(m, s, d.value.next, left, stops, w, a[1..], b[1..]);
        var x, y := FillFrom(m, s, d.value.next, left, stops, w, a[1..]), FillFrom(m, s, d.value.next, left, stops, w, b[1..]);
        if x.Ok? {
          OneMoreCell(d.value.slot, d'.value.slot, x.value, y.value, |FillTrace(m, s, d.value.next, left, stops, w, a[1..])|);
        }
      }
    }
  }

  lemma NoCells()
    ensures SameFill([], [], 0)
  {
  }

  /** Although only cell 0 is cleared, what the array held before does not show in
      the function, size or gas of any cell, nor in anything of a decoded cell
      that has no rep prefix. */
  lemma FillForgets(m: Machine, s: State, a: seq<Slot>, b: seq<Slot>)
    requires ForgetsHistory(m) && |a| == |b|
    ensures CycleTrace(m, s, a) == CycleTrace(m, s, b)
    ensures SameResult(Fill(m, s, a), Fill(m, s, b), |CycleTrace(m, s, a)|)
  {
    FillFromForgets(m, s, s.cpu.eip, s.gas, false, InWriteable(s.cpu.eip), Cleared(a), Cleared(b));
  }

  // ---------- gas is counted twice, and the counts agree ----------

  /** What the gas count promises of slot i of the filled slots, run from s. */
  ghost predicate SlotIsCounted(m: Machine, slots: seq<Slot>, trace: seq<(u32, u64)>, s: State, i: nat)
    requires i < |slots|
  {
    var here := RunSlots(m, slots[..i], s);
    here.Continue? && i < |trace| ==>
      && (here.st.cpu.eip, here.st.gas) == trace[i]
      && (OutOfGasAt(RunSlot(m, slots[i], here.st)) ==> i + 1 == |trace|)
      && (here.st.gas < slots[i].gasCost ==> RunSlots(m, slots, s) == Failed(here.st.(gas := 0), OutOfGas))
  }

  predicate OutOfGasAt(r: Outcome) {
    r.Failed? && r.error == OutOfGas
  }

  lemma SlotsSplit(m: Machine, slots: seq<Slot>, s: State, i: nat)
    requires i < |slots| && RunSlots(m, slots[..i], s).Continue?
    ensures var here := RunSlots(m, slots[..i], s).st;
            !RunSlot(m, slots[i], here).Continue? ==> RunSlots(m, slots, s) == RunSlot(m, slots[i], here)
    decreases i
  {
    hide RunSlot;
    if i > 0 {
      assert slots[..i][1..] == slots[1..][..i - 1];
      SlotsSplit(m, slots[1..], RunSlot(m, slots[0], s).st, i - 1);
    }
  }

  /** One slot that is read past, with the rest still to run. */
  lemma ReadPast(m: Machine, d: Decoded, s: State)
    requires AsPredicted(d, s.(gas := SatSub(s.gas, d.slot.gasCost)), m.exec(d.slot, s.(gas := SatSub(s.gas, d.slot.gasCost))))
    ensures var r := RunSlot(m, d.slot, s);
            && (r.Continue? ==> r.st.cpu.eip == d.next && r.st.gas == SatSub(s.gas, d.slot.gasCost))
            && (OutOfGasAt(r) ==> s.gas < d.slot.gasCost)
  {
  }

  lemma {:induction false} FilledIsCounted(m: Machine, s0: State, s: State, w: bool, prev: seq<Slot>, i: nat)
    requires FollowsPredictions(m) && StopsInWriteable(m)
    requires FillFrom(m, s0, s.cpu.eip, s.gas, false, w, prev).Ok? && i < |prev|
    ensures SlotIsCounted(m, FillFrom(m, s0, s.cpu.eip, s.gas, false, w, prev).value,
                          FillTrace(m, s0, s.cpu.eip, s.gas, false, w, prev), s, i)
    decreases i
  {
    hide RunSlot, FollowsPredictions, StopsInWriteable, AsPredicted;
    var filled := FillFrom(m, s0, s.cpu.eip, s.gas, false, w, prev).value;
    var trace := FillTrace(m, s0, s.cpu.eip, s.gas, false, w, prev);
    var here := RunSlots(m, filled[..i], s);
    var d := m.decode(s0, s.cpu.eip, w, prev[0]).value;
    var left := SatSub(s.gas, d.slot.gasCost);
    var r := RunSlot(m, d.slot, s);
    if here.Continue? && i < |trace| {
      assert FillTrace(m, s0, d.next, left, true, w, prev[1..]) == [];
      if |trace| > 1 {
        assert !d.stop && left > 0;
        assert AsPredicted(d, s.(gas := left), m.exec(d.slot, s.(gas := left))) by { Predicted(m, s0, s, w, prev[0], left); }
        ReadPast(m, d, s);
      }
      if here.st.gas < filled[i].gasCost {
        SlotsSplit(m, filled, s, i);
        Overdrawn(m, filled[i], here.st);
      }
      if i > 0 {
        assert filled[1..] == FillFrom(m, s0, d.next, left, false, w, prev[1..]).value;
        assert filled[..i][1..] == filled[1..][..i - 1];
        FilledIsCounted(m, s0, r.st, w, prev[1..], i - 1);
      }
    }
  }

  lemma Predicted(m: Machine, s0: State, s: State, w: bool, p: Slot, left: u64)
    requires FollowsPredictions(m) && StopsInWriteable(m)
    requires var d := m.decode(s0, s.cpu.eip, w, p); d.Ok? && !d.value.stop
    ensures var d := m.decode(s0, s.cpu.eip, w, p).value;
            AsPredicted(d, s.(gas := left), m.exec(d.slot, s.(gas := left)))
  {
  }

  /** An instruction that cannot be paid for has no effect: the gas is gone, eip
      points at the instruction, and everything else is as it was. */
  lemma Overdrawn(m: Machine, p: Slot, s: State)
    requires s.gas < p.gasCost
    ensures RunSlot(m, p, s) == Failed(s.(gas := 0), OutOfGas)
  {
  }

  /** Before each filled slot runs, eip is where the slot was decoded and the gas
      left is what the decoder had counted; only the last decoded slot can end
      the gas; and if its charge fails, the cycle ends there with every earlier
      slot run, no gas, and nothing else done. */
  lemma GasCoherence(m: Machine, prev: seq<Slot>, s: State, i: nat)
    requires FollowsPredictions(m) && StopsInWriteable(m) && Fill(m, s, prev).Ok? && i < |prev|
    ensures SlotIsCounted(m, Fill(m, s, prev).value, CycleTrace(m, s, prev), s, i)
  {
    hide FollowsPredictions, StopsInWriteable;
    FilledIsCounted(m, s, s, InWriteable(s.cpu.eip), Cleared(prev), i);
  }
}

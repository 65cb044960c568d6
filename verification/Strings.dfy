// Repeated string instructions: how far they get, and what they leave.

module Strings {
  import opened Words
  import opened Errors
  import opened VMState
  import opened Opcodes
  import opened Fetch
  import opened Ops

  /** One element and one off the count, with no thought of gas. */
  function Turn(c: Cpu, op: Op, o: bool): CpuEffect<Cpu>
    requires IsStringOp(op)
  {
    var t :- StringOp(c, op, o);
    Done(Decremented(t, o))
  }

  /** i elements. */
  function Turns(c: Cpu, op: Op, o: bool, i: nat): CpuEffect<Cpu>
    requires IsStringOp(op)
    decreases i
  {
    if i == 0 then Done(c)
    else
      var t :- Turn(c, op, o);
      Turns(t, op, o, i - 1)
  }

  lemma {:induction false} TurnsCompose(c: Cpu, op: Op, o: bool, a: nat, b: nat)
    requires IsStringOp(op)
    ensures var first := Turns(c, op, o, a);
            Turns(c, op, o, a + b) == if first.Done? then Turns(first.value, op, o, b) else first
    decreases a
  {
    hide Turn;
    if a > 0 {
      var t := Turn(c, op, o);
      if t.Done? {
        TurnsCompose(t.value, op, o, a - 1, b);
      }
    }
  }

  lemma RepTurnIsTurn(hv: Hypervisor, p: Slot, s: State, cost: u64)
    requires StringOpcode(p.opcode)
    ensures var t := Turn(s.cpu, RepFunction(p), p.sizeOverride);
            RepTurn(hv, p, s, cost) == if t.Done? then Done(s.(cpu := t.value, gas := SatSub(s.gas, cost)))
                                       else Raised(s.(cpu := t.st), t.error)
  {
    hide RepFunction, StringOp, ExecOnce, IsStringOp, StringOpcode, Decremented;
    StringTurn(hv, RepFunction(p), p, s);
  }

  lemma TurnCounts(c: Cpu, op: Op, o: bool)
    requires IsStringOp(op) && RepCount(c, o) > 0
    ensures Turn(c, op, o).Done? ==> RepCount(Turn(c, op, o).value, o) == RepCount(c, o) - 1
  {
    hide StringOp;
  }

  lemma {:induction false} TurnsCount(c: Cpu, op: Op, o: bool, i: nat)
    requires IsStringOp(op) && i <= RepCount(c, o) && Turns(c, op, o, i).Done?
    ensures RepCount(Turns(c, op, o, i).value, o) == RepCount(c, o) - i
    decreases i
  {
    hide Turn, RepCount;
    if i > 0 {
      TurnCounts(c, op, o);
      TurnsCount(Turn(c, op, o).value, op, o, i - 1);
    }
  }

  // ---------- gas and elements ----------

  /** How many turns gas g pays for at `cost` each: a turn only needs some gas
      to be left, so the last one may be paid in part. */
  predicate Affords(g: u64, cost: u64, k: nat) {
    g <= k * cost && (k > 0 ==> (k - 1) * cost < g)
  }

  lemma AffordsStep(g: u64, cost: u64, k: nat)
    requires cost > 0 && g > 0 && Affords(g, cost, k)
    ensures k > 0 && Affords(SatSub(g, cost), cost, k - 1)
  {
    assert (k - 1) * cost == k * cost - cost;
    if k > 1 {
      assert (k - 2) * cost == (k - 1) * cost - cost;
    }
  }

  /** The count of turns afforded exists and is the quotient rounded up. */
  lemma AffordsExists(g: u64, cost: u64) returns (k: nat)
    requires cost > 0
    ensures Affords(g, cost, k)
  {
    k := if g % cost == 0 then g / cost else g / cost + 1;
    var q, r := g / cost, g % cost;
    assert g == q * cost + r;
    assert (q + 1) * cost == q * cost + cost;
    assert (q - 1) * cost == q * cost - cost;
  }

  /** A rep of a string operation without flag test, on count n with gas g left
      after the charge for the instruction, when the accesses it gets to succeed:
      it finishes if and only if n = 0 or g > (n - 1) * cost; otherwise it does
      exactly as many elements as g affords and stops with no gas and the rest of
      the count. */
  lemma {:induction false} RepGasBound(hv: Hypervisor, p: Slot, s: State, cost: u64, k: nat, until: bool)
    requires RepNoFlagOpcode(p.opcode) && cost > 0 && Affords(s.gas, cost, k)
    requires var n := RepCount(s.cpu, p.sizeOverride);
             Turns(s.cpu, RepFunction(p), p.sizeOverride, if n <= k then n else k).Done?
    ensures var n, op := RepCount(s.cpu, p.sizeOverride), RepFunction(p);
            && RepLoop(hv, p, s, cost, until) ==
                 if n <= k
                 then Done(s.(cpu := Turns(s.cpu, op, p.sizeOverride, n).value, gas := SatSub(s.gas, Capped(n, cost, s.gas))))
                 else Raised(s.(cpu := Turns(s.cpu, op, p.sizeOverride, k).value, gas := 0), OutOfGas)
    decreases RepCount(s.cpu, p.sizeOverride)
  {
    hide RepFunction, RepTurn, Turn, RepCount, RepNoFlagOpcode, RepFlagOpcode, Affords, IsStringOp;
    var n, op, o := RepCount(s.cpu, p.sizeOverride), RepFunction(p), p.sizeOverride;
    NotBoth(p.opcode);
    if n == 0 {
    } else if s.gas == 0 {
      NothingAfforded(cost, k);
    } else {
      AffordsStep(s.gas, cost, k);
      RepTurnIsTurn(hv, p, s, cost);
      TurnCounts(s.cpu, op, o);
      var t := RepTurn(hv, p, s, cost).value;
      RepGasBound(hv, p, t, cost, k - 1, until);
      CappedStep(n, cost, s.gas);
    }
  }

  /** n * cost, or the gas if that is less. */
  function Capped(n: nat, cost: u64, gas: u64): u64 {
    var total: nat := n * cost;
    if total < gas then total else gas
  }

  lemma CappedStep(n: nat, cost: u64, gas: u64)
    requires n > 0
    ensures SatSub(gas, Capped(n, cost, gas)) == SatSub(SatSub(gas, cost), Capped(n - 1, cost, SatSub(gas, cost)))
  {
    assert (n - 1) * cost == n * cost - cost;
  }

  lemma NothingAfforded(cost: u64, k: nat)
    requires cost > 0 && Affords(0, cost, k)
    ensures k == 0
  {
  }

  lemma NotBoth(opcode: u8)
    ensures RepNoFlagOpcode(opcode) ==> !RepFlagOpcode(opcode) && StringOpcode(opcode)
    ensures RepFlagOpcode(opcode) ==> StringOpcode(opcode)
  {
  }

  /** The condition of RepGasBound without the quotient. */
  lemma FinishesIff(n: nat, g: u64, cost: u64, k: nat)
    requires cost > 0 && Affords(g, cost, k)
    ensures n <= k <==> n == 0 || g > (n - 1) * cost
  {
    if n > 0 {
      if n <= k {
        Grows(n - 1, k - 1, cost);
      } else {
        Grows(k, n - 1, cost);
      }
    }
  }

  lemma Grows(a: nat, b: nat, cost: nat)
    requires a <= b
    ensures a * cost <= b * cost
  {
    var more := b - a;
    assert b * cost == a * cost + more * cost;
  }

  /** When is fuel monotonicity exact? A rep that finishes keeps all of d more
      gas if and only if its gas covers every turn in full: a last turn that is
      paid in part swallows the difference. */
  lemma ExtraGasIsKept(hv: Hypervisor, p: Slot, s: State, cost: u64, d: u64)
    requires RepNoFlagOpcode(p.opcode) && cost > 0 && d > 0 && s.gas + d < 0x1_0000_0000_0000_0000
    requires var n := RepCount(s.cpu, p.sizeOverride);
             && Turns(s.cpu, RepFunction(p), p.sizeOverride, n).Done?
             && (n == 0 || s.gas > (n - 1) * cost)
    ensures var more := RepLoop(hv, p, s.(gas := s.gas + d), cost, false);
            var less := RepLoop(hv, p, s, cost, false);
            && more.Done? && less.Done?
            && (more.value.gas == less.value.gas + d <==> s.gas >= RepCount(s.cpu, p.sizeOverride) * cost)
  {
    hide RepFunction, RepLoop, Turns, RepCount, RepNoFlagOpcode, Affords;
    var n := RepCount(s.cpu, p.sizeOverride);
    var k := AffordsExists(s.gas, cost);
    var k' := AffordsExists(s.gas + d, cost);
    FinishesIff(n, s.gas, cost, k);
    FinishesIff(n, s.gas + d, cost, k');
    RepGasBound(hv, p, s, cost, k, false);
    RepGasBound(hv, p, s.(gas := s.gas + d), cost, k', false);
  }

  // ---------- where a flag test stops ----------

  /** The first j elements all leave the zero flag different from `until`. */
  predicate GoesOn(c: Cpu, op: Op, o: bool, until: bool, j: nat)
    requires IsStringOp(op)
    decreases j
  {
    j == 0
    || (Turn(c, op, o).Done? && Turn(c, op, o).value.flags.zero != until && GoesOn(Turn(c, op, o).value, op, o, until, j - 1))
  }

  /** A rep with a flag test stops after the first element that leaves the zero
      flag equal to `until`, or when the count is used up. */
  lemma {:induction false} RepStopsAt(hv: Hypervisor, p: Slot, s: State, cost: u64, until: bool, j: nat)
    requires RepFlagOpcode(p.opcode) && j < RepCount(s.cpu, p.sizeOverride) && s.gas > j * cost
    requires GoesOn(s.cpu, RepFunction(p), p.sizeOverride, until, j)
    requires Turns(s.cpu, RepFunction(p), p.sizeOverride, j + 1).Done?
    requires j + 1 == RepCount(s.cpu, p.sizeOverride)
             || Turns(s.cpu, RepFunction(p), p.sizeOverride, j + 1).value.flags.zero == until
    ensures RepLoop(hv, p, s, cost, until) ==
              Done(s.(cpu := Turns(s.cpu, RepFunction(p), p.sizeOverride, j + 1).value,
                      gas := SatSub(s.gas, Capped(j + 1, cost, s.gas))))
    decreases j
  {
    hide RepFunction, RepTurn, Turn, RepCount, RepFlagOpcode, StringOpcode, IsStringOp, Capped, SatSub;
    var op, o := RepFunction(p), p.sizeOverride;
    NotBoth(p.opcode);
    RepTurnIsTurn(hv, p, s, cost);
    TurnCounts(s.cpu, op, o);
    var t := RepTurn(hv, p, s, cost).value;
    CappedStep(j + 1, cost, s.gas);
    if j == 0 {
      assert Turns(s.cpu, op, o, 1) == Turns(t.cpu, op, o, 0);
      assert RepLoop(hv, p, s, cost, until) == Done(t);
      NothingCapped(cost, t.gas);
    } else {
      StillGas(s.gas, cost, j);
      RepStopsAt(hv, p, t, cost, until, j - 1);
      assert RepLoop(hv, p, s, cost, until) == RepLoop(hv, p, t, cost, until);
    }
  }

  /** A rep with a flag test that is still waiting when the gas is gone has done
      as many elements as the gas affords. */
  lemma {:induction false} RepRunsOut(hv: Hypervisor, p: Slot, s: State, cost: u64, until: bool, k: nat)
    requires RepFlagOpcode(p.opcode) && cost > 0 && Affords(s.gas, cost, k) && k < RepCount(s.cpu, p.sizeOverride)
    requires GoesOn(s.cpu, RepFunction(p), p.sizeOverride, until, k)
    ensures Turns(s.cpu, RepFunction(p), p.sizeOverride, k).Done?
    ensures RepLoop(hv, p, s, cost, until) ==
              Raised(s.(cpu := Turns(s.cpu, RepFunction(p), p.sizeOverride, k).value, gas := 0), OutOfGas)
    decreases k
  {
    hide RepFunction, RepTurn, Turn, RepCount, RepFlagOpcode, StringOpcode, Affords, IsStringOp;
    NotBoth(p.opcode);
    if s.gas == 0 {
      NothingAfforded(cost, k);
    } else {
      AffordsStep(s.gas, cost, k);
      RepTurnIsTurn(hv, p, s, cost);
      TurnCounts(s.cpu, RepFunction(p), p.sizeOverride);
      RepRunsOut(hv, p, RepTurn(hv, p, s, cost).value, cost, until, k - 1);
    }
  }

  /** An access that fails ends any rep that has got to it with the error of that
      access, the elements before it done and paid for. */
  lemma {:induction false} RepFailsAt(hv: Hypervisor, p: Slot, s: State, cost: u64, until: bool, j: nat)
    requires StringOpcode(p.opcode) && j < RepCount(s.cpu, p.sizeOverride) && s.gas > j * cost
    requires RepFlagOpcode(p.opcode) ==> GoesOn(s.cpu, RepFunction(p), p.sizeOverride, until, j)
    requires Turns(s.cpu, RepFunction(p), p.sizeOverride, j).Done?
    requires Turns(s.cpu, RepFunction(p), p.sizeOverride, j + 1).Raised?
    ensures var e := Turns(s.cpu, RepFunction(p), p.sizeOverride, j + 1);
            RepLoop(hv, p, s, cost, until) == Raised(s.(cpu := e.st, gas := SatSub(s.gas, Capped(j, cost, s.gas))), e.error)
    decreases j
  {
    hide RepFunction, RepTurn, Turn, RepCount, RepFlagOpcode, StringOpcode, IsStringOp, Capped, SatSub;
    var op, o := RepFunction(p), p.sizeOverride;
    RepTurnIsTurn(hv, p, s, cost);
    if j == 0 {
      NothingCapped(cost, s.gas);
    } else {
      TurnCounts(s.cpu, op, o);
      var t := RepTurn(hv, p, s, cost).value;
      StillGas(s.gas, cost, j);
      CappedStep(j, cost, s.gas);
      RepFailsAt(hv, p, t, cost, until, j - 1);
      assert RepLoop(hv, p, s, cost, until) == RepLoop(hv, p, t, cost, until);
    }
  }

  /** Fuel monotonicity is exact for these under the same condition: the gas
      covers every turn that is made in full. */
  lemma ExtraGasIsKeptAtStop(hv: Hypervisor, p: Slot, s: State, cost: u64, until: bool, j: nat, d: u64)
    requires RepFlagOpcode(p.opcode) && j < RepCount(s.cpu, p.sizeOverride) && s.gas > j * cost
    requires d > 0 && s.gas + d < 0x1_0000_0000_0000_0000
    requires GoesOn(s.cpu, RepFunction(p), p.sizeOverride, until, j)
    requires Turns(s.cpu, RepFunction(p), p.sizeOverride, j + 1).Done?
    requires j + 1 == RepCount(s.cpu, p.sizeOverride)
             || Turns(s.cpu, RepFunction(p), p.sizeOverride, j + 1).value.flags.zero == until
    ensures var more := RepLoop(hv, p, s.(gas := s.gas + d), cost, until);
            var less := RepLoop(hv, p, s, cost, until);
            && more.Done? && less.Done?
            && (more.value.gas == less.value.gas + d <==> s.gas >= (j + 1) * cost)
  {
    hide RepFunction, RepLoop, Turns, RepCount, RepFlagOpcode, GoesOn;
    RepStopsAt(hv, p, s, cost, until, j);
    RepStopsAt(hv, p, s.(gas := s.gas + d), cost, until, j);
    TimesOneLess(j + 1, cost);
  }

  lemma NothingCapped(cost: u64, gas: u64)
    ensures SatSub(gas, Capped(0, cost, gas)) == gas
  {
  }

  lemma StillGas(gas: u64, cost: u64, j: nat)
    requires j > 0 && gas > j * cost
    ensures SatSub(gas, cost) > (j - 1) * cost
  {
    TimesOneLess(j, cost);
  }

  lemma TimesOneLess(j: nat, cost: nat)
    requires j > 0
    ensures j * cost == (j - 1) * cost + cost && (j - 1) * cost >= 0
  {
  }
}

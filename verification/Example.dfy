// A hypervisor and a program that meet the hypotheses of the theorems.

module Example {
  import opened Words
  import Memory
  import opened VMState
  import opened Opcodes
  import opened Fetch
  import opened Pipeline
  import Refinement
  import Runs
  import Ops
  import X86
  import X86Gas
  import opened Programs
  import opened Termination
  import Crossing
  import Fuel

  /** Ignores every interrupt. */
  const IDLE: Ops.Hypervisor := (s: State, n: u8) => Done(s)

  lemma IdleIsWellBehaved()
    ensures X86.RespectsFrozen(IDLE) && X86Gas.GasOblivious(IDLE) && NeverRefunds(IDLE)
  {
    forall s: State, n: u8 ensures Refinement.Frozen(s, Refinement.Left(IDLE(s, n))) {
      X86.PreservesItself(s.cpu.mem);
    }
  }

  /** One block of 16 bytes in read-only memory, the first of which is hlt. */
  predicate JustHlt(s: State) {
    && s.cpu.eip == 0x1_0000 && s.cpu.mem.Keys == {0x1_0000}
    && |s.cpu.mem[0x1_0000]| == 16 && s.cpu.mem[0x1_0000][0] == 0xF4
    && s.gas >= Cost(s.costs, TierNone)
  }

  lemma HltIsAllThatDecodes(s: State, eip: u32)
    requires JustHlt(s)
    ensures var d := DecodeAt(OPCODES, s, eip, false, DEFAULT_SLOT);
            if eip != 0x1_0000 then d.Err?
            else d.Ok? && d.value.slot.op == Hlt && d.value.stop && d.value.slot.gasCost == Cost(s.costs, TierNone)
  {
    hide ReadFields, DecodeWindow;
    var code := s.cpu.mem[0x1_0000];
    if eip == 0x1_0000 {
      assert code[0..][..16] == code;
      var f := Crossing.HltBytes(code);
      Crossing.DecodesUnprefixed(s, eip, false, code, f);
    } else if Memory.BlockOf(eip) == 0x1_0000 {
      assert Memory.Local(eip) > 0;
    }
  }

  /** The program is sound, and with every number of cells execute halts on it at
      once: the hypotheses of the theorems on runs can be met together. */
  lemma HltProgramHalts(s: State, n: nat)
    requires JustHlt(s) && n >= 1
    ensures X86.RespectsFrozen(IDLE) && SoundCode(s) && SoundRun(IDLE, s) && FreshRun(IDLE, s, n)
    ensures Runs.Executes(Qx86(IDLE), n, s, Halted(s.(gas := s.gas - Cost(s.costs, TierNone))))
  {
    hide Steps, RunSlot, DecodeAt, Qx86;
    IdleIsWellBehaved();
    hide X86.RespectsFrozen, X86Gas.GasOblivious, NeverRefunds;
    forall eip: u32 ensures SoundInstruction(s, eip) {
      HltIsAllThatDecodes(s, eip);
    }
    SoundCodeRunsSoundly(IDLE, s);
    SoundRunIsFresh(IDLE, s, n);
    OneStepHalts(s);
    Fuel.StepsHaltExecution(IDLE, n, s, 1);
  }

  lemma OneStepHalts(s: State)
    requires JustHlt(s)
    ensures Steps(Qx86(IDLE), s, 1) == Halted(s.(gas := s.gas - Cost(s.costs, TierNone)))
  {
    hide DecodeAt, Ops.RepLoop, Ops.CpuOp, Ops.RepGas, Cost;
    HltIsAllThatDecodes(s, 0x1_0000);
    assert Steps(Qx86(IDLE), s, 1) == Step(Qx86(IDLE), s);
  }

  /** The gas schedule of the original's tests. */
  const TEST_COSTS: Costs := [0, 1, 4, 10, 20, 10, 1, 15, 1]

  /** Small charges that are not 0 do not wrap to 0. */
  lemma SmallCharge(costs: Costs, i: nat, modrm: bool, branch: bool, n: nat, writeable: bool)
    requires 1 <= i <= 4 && 1 <= costs[i] <= 20
    requires Cost(costs, ModRMSurcharge) <= 20 && Cost(costs, ConditionalBranch) <= 20
    requires Cost(costs, MemoryAccess) <= 20 && Cost(costs, WriteableMemoryExec) <= 20
    ensures Wrap64(ChargeSum(costs, i, modrm, branch, n, writeable)) > 0
  {
    hide Cost;
    assert 1 <= ChargeSum(costs, i, modrm, branch, n, writeable) <= 140 by { hide Wrap64; }
    hide ChargeSum;
  }

  /** Under it every instruction that does something costs something, so that
      the bound on the length of a run applies to this program. */
  lemma TestScheduleCharges(s: State)
    requires JustHlt(s) && s.costs == TEST_COSTS
    ensures Bounded(s)
  {
    hide ChargeSum, Wrap64;
    assert forall i :: 1 <= i <= 4 ==> 1 <= TEST_COSTS[i] <= 20;
    forall i: nat, modrm, branch, n: nat, writeable | 1 <= i <= 4 && n <= 3
      ensures Wrap64(ChargeSum(s.costs, i, modrm, branch, n, writeable)) > 0
    {
      SmallCharge(s.costs, i, modrm, branch, n, writeable);
    }
  }
}

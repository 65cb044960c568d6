// The x86 machine meets what the refinement theorem asks, whatever the opcode
// table is, as long as its entries are sane.

module X86 {
  import opened Words
  import opened Errors
  import opened Structs
  import opened Memory
  import opened VMState
  import opened Opcodes
  import opened Decoding
  import opened Fetch
  import Pipeline
  import opened Refinement
  import opened Arithmetic
  import opened Ops

  /** The machine with a given opcode table and hypervisor. */
  function MachineOf(table: Table, hv: Hypervisor): Pipeline.Machine {
    Pipeline.Machine((s: State, eip: u32, w: bool, prev: Slot) => DecodeAt(table, s, eip, w, prev),
            (p: Slot, s: State) => Exec(hv, p, s))
  }

  /** A hypervisor that respects read-only memory, the blocks and the gas schedule. */
  ghost predicate RespectsFrozen(hv: Hypervisor) {
    forall s: State, n: u8 :: Frozen(s, Left(hv(s, n)))
  }

  // ---------- opcode functions ----------

  lemma PushRegQuiet(c: Cpu, d: Cpu, r: u3, sizeOverride: bool)
    requires Quiet(c, Done(d))
    ensures Quiet(c, PushReg(d, r, sizeOverride))
  {
    QuietThen(c, d, PushReg(d, r, sizeOverride));
  }

  lemma PushAllQuiet(c: Cpu, o: bool)
    ensures Quiet(c, PushAllOp(c, o))
  {
    QuietAtRest(c);
    hide Quiet, Push, PushReg;
    var esp := GetReg(c.regs, ESP, if o then SizeWord else SizeDword);
    PushRegQuiet(c, c, EAX, o);
    var c1 := PushReg(c, EAX, o);
    if c1.Done? {
      PushRegQuiet(c, c1.value, ECX, o);
      var c2 := PushReg(c1.value, ECX, o);
      if c2.Done? {
        PushRegQuiet(c, c2.value, EDX, o);
        var c3 := PushReg(c2.value, EDX, o);
        if c3.Done? {
          PushRegQuiet(c, c3.value, EBX, o);
          var c4 := PushReg(c3.value, EBX, o);
          if c4.Done? {
            QuietThen(c, c4.value, Push(c4.value, esp, o));
            var c5 := Push(c4.value, esp, o);
            if c5.Done? {
              PushRegQuiet(c, c5.value, EBP, o);
              var c6 := PushReg(c5.value, EBP, o);
              if c6.Done? {
                PushRegQuiet(c, c6.value, ESI, o);
                var c7 := PushReg(c6.value, ESI, o);
                if c7.Done? {
                  PushRegQuiet(c, c7.value, EDI, o);
                }
              }
            }
          }
        }
      }
    }
  }

  lemma QuietAtRest(c: Cpu)
    ensures Quiet(c, Done(c))
  {
  }

  lemma MovesQuiet(c: Cpu, p: Slot)
    ensures Quiet(c, MovOp(c, p)) && Quiet(c, LeaOp(c, p))
  {
    hide SetArg, GetArg;
  }

  lemma StackQuiet(c: Cpu, p: Slot)
    ensures Quiet(c, PushOp(c, p)) && Quiet(c, PopOp(c, p))
    ensures Quiet(c, PushFlagsOp(c, p)) && Quiet(c, PopFlagsOp(c))
  {
    hide SetArg, GetArg, Push, Pop;
  }

  lemma PopAllQuiet(c: Cpu, o: bool)
    ensures Quiet(c, PopAllOp(c, o))
  {
    hide Pop, SetPopped;
  }

  lemma AddQuiet(c: Cpu, p: Slot, size: ValueSize)
    ensures Quiet(c, AddOp(c, p, size))
  {
    hide SetArg, AddWithFlags, GetArg;
  }

  lemma AluQuiet(c: Cpu, p: Slot, kind: AluKind, size: ValueSize)
    ensures Quiet(c, AluOp(c, p, kind, size))
  {
    hide SetArg, AddWithFlags, SubWithFlags, GetArg, AddOp;
    AddQuiet(c, p, size);
    var a := Arg(c, p, 0);
    if kind == Adc && a.Done? && Exact(a.value, size).Ok? {
      var v := Sized(CarryIn(c.flags, Exact(a.value, size).value, size), size);
      var t := SetArg(c, p.args[0].location, v);
      if t.Done? {
        AddQuiet(t.value, p, size);
        QuietThen(c, t.value, AddOp(t.value, p, size));
      }
    }
  }

  lemma ArithmeticQuiet(c: Cpu, p: Slot, left: bool, size: ValueSize)
    ensures Quiet(c, DaaOp(c)) && Quiet(c, RotateOp(c, p, left, size))
    ensures Quiet(c, MulOp(c, p, size)) && Quiet(c, DivOp(c, p, size))
  {
    hide SetArg, SetReg, SetPair, GetArg, RclWithFlags, RcrWithFlags, DaaWithFlags;
  }

  lemma StringsQuiet(c: Cpu, op: Op, o: bool)
    requires IsStringOp(op)
    ensures Quiet(c, StringOp(c, op, o))
  {
    hide SubWithFlags, GetMem, GetReg, SetReg, StoreAt;
  }

  lemma PlainOpsQuiet(c: Cpu, op: Op, p: Slot)
    requires KeepsEip(op)
    ensures OnCpu(op) && Quiet(c, CpuOp(c, op, p))
  {
    hide MovOp, LeaOp, PushOp, PopOp, PushAllOp, PopAllOp, PushFlagsOp, PopFlagsOp;
    hide AluOp, DaaOp, RotateOp, MulOp, DivOp, StringOp, Quiet;
    QuietAtRest(c);
    if IsStringOp(op) {
      StringsQuiet(c, op, p.sizeOverride);
    } else if op.Alu? {
      AluQuiet(c, p, op.kind, op.width.Size(p.sizeOverride));
    } else if op.Rcl? || op.Rcr? || op.Mul? || op.Div? {
      ArithmeticQuiet(c, p, op.Rcl?, op.width.Size(p.sizeOverride));
    } else {
      MovesQuiet(c, p);
      StackQuiet(c, p);
      PushAllQuiet(c, p.sizeOverride);
      PopAllQuiet(c, p.sizeOverride);
      ArithmeticQuiet(c, p, true, SizeByte);
      FlagsQuiet(c);
    }
  }

  lemma FlagsQuiet(c: Cpu)
    ensures forall f :: Quiet(c, Done(c.(flags := f)))
  {
  }

  /** Leaves everything read-only alone, and fails in no special way. */
  ghost predicate Harmless(c: Cpu, e: CpuEffect<Cpu>) {
    Preserves(c.mem, CpuLeft(e).mem) && (e.Raised? ==> e.error.Ordinary())
  }

  lemma JumpsHarmless(c: Cpu, p: Slot)
    ensures Harmless(c, JumpRelativeOp(c, p)) && Harmless(c, JumpAbsoluteOp(c, p))
    ensures Harmless(c, JumpIfOp(c, p)) && Harmless(c, JumpIfEcxZeroOp(c, p)) && Harmless(c, RetOp(c, p))
  {
    hide GetArg, JumpBase, CcMatches, Pop;
  }

  lemma CallsHarmless(c: Cpu, p: Slot)
    ensures Harmless(c, CallRelativeOp(c, p)) && Harmless(c, CallAbsoluteOp(c, p))
  {
    hide JumpRelativeOp, JumpAbsoluteOp, PushReturn;
    PushReturnQuiet(c, p);
    var t := PushReturn(c, p);
    if t.Done? {
      JumpsHarmless(t.value, p);
    }
  }

  lemma PushReturnQuiet(c: Cpu, p: Slot)
    ensures Quiet(c, PushReturn(c, p))
  {
    hide GetArg, SetArg, Push;
    var v := Arg(c, p, 0);
    if v.Done? && v.value.U32Zx().Ok? {
      var t := Push(c, Dword(Wrap32(c.eip + p.eipSize)), p.sizeOverride);
      if t.Done? {
        QuietThen(c, t.value, SetArg(t.value, p.args[1].location, Dword(v.value.U32Zx().value)));
      }
    }
  }

  lemma CpuOpsHarmless(c: Cpu, op: Op, p: Slot)
    requires OnCpu(op)
    ensures Harmless(c, CpuOp(c, op, p))
  {
    hide JumpRelativeOp, JumpAbsoluteOp, JumpIfOp, JumpIfEcxZeroOp, RetOp, CallRelativeOp, CallAbsoluteOp;
    if KeepsEip(op) {
      hide CpuOp;
      PlainOpsQuiet(c, op, p);
    } else {
      JumpsHarmless(c, p);
      CallsHarmless(c, p);
    }
  }

  // ---------- rep loops ----------

  lemma ExecOnceFrozen(hv: Hypervisor, op: Op, p: Slot, s: State)
    requires RespectsFrozen(hv) && !op.Repe? && !op.Repne?
    ensures Frozen(s, Left(ExecOnce(hv, op, p, s)))
  {
    hide CpuOp;
    if OnCpu(op) {
      CpuOpsHarmless(s.cpu, op, p);
    }
  }

  lemma {:induction false} RepLoopFrozen(hv: Hypervisor, p: Slot, s: State, gasCost: u64, until: bool)
    requires RespectsFrozen(hv)
    ensures Frozen(s, Left(RepLoop(hv, p, s, gasCost, until)))
    decreases RepCount(s.cpu, p.sizeOverride)
  {
    hide ExecOnce, RepFunction, StringOpcode, RepFlagOpcode, RepCount, Preserves;
    assert Frozen(s, s) by { assert Preserves(s.cpu.mem, s.cpu.mem) by { PreservesItself(s.cpu.mem); } }
    if RepCount(s.cpu, p.sizeOverride) != 0 && s.gas != 0 {
      ExecOnceFrozen(hv, RepFunction(p), p, s);
      var t := RepTurn(hv, p, s, gasCost);
      if t.Done? && StringOpcode(p.opcode) {
        RepTurnCounts(hv, p, s, gasCost);
        RepLoopFrozen(hv, p, t.value, gasCost, until);
        FrozenTransitive(s, t.value, Left(RepLoop(hv, p, t.value, gasCost, until)));
      }
    }
  }

  lemma PreservesItself(m: Mem)
    ensures Preserves(m, m)
  {
  }

  lemma ExecFrozen(hv: Hypervisor, p: Slot, s: State)
    requires RespectsFrozen(hv)
    ensures Frozen(s, Left(Exec(hv, p, s)))
  {
    hide ExecOnce, RepLoop, RepGas;
    PreservesItself(s.cpu.mem);
    RepLoopFrozen(hv, p, s, RepGas(s.costs, p), false);
    RepLoopFrozen(hv, p, s, RepGas(s.costs, p), true);
    if !IsRep(p) {
      ExecOnceFrozen(hv, p.op, p, s);
    }
  }

  // ---------- decoding ----------

  lemma {:induction false} JumpArgIsImmediate(o: Opcode, n: nat, opcode: u8, bytes: seq<u8>, size: nat, args: Args,
                                              sizeOverride: bool, m: ParsedModRM)
    requires n <= 3 && o.source[0] == JumpRel && (n > 0 ==> args[0].location.Immediate?)
    ensures var r := DecodeArgsFrom(o, n, opcode, bytes, size, args, sizeOverride, m);
            r.Ok? ==> r.value.0[0].location.Immediate?
    decreases 3 - n
  {
    if n < 3 {
      var r := DecodeArg(o.source[n], o.size[n].ToFixed(sizeOverride), opcode, bytes, m);
      if r.Ok? {
        var (arg, advance) := r.value;
        assert n == 0 ==> arg.location.Immediate?;
        hide DecodeArg;
        JumpArgIsImmediate(o, n + 1, opcode, bytes[advance..], size + advance, args[n := arg], sizeOverride, m);
      }
    }
  }

  lemma JumpArgsImmediate(o: Opcode, buffer: seq<u8>, prev: Args, sizeOverride: bool, m: Option<ParsedModRM>)
    requires o.source[0] == JumpRel
    ensures var r := DecodeArgs(o, buffer, prev, sizeOverride, m);
            r.Ok? ==> r.value.0[0].location.Immediate?
  {
    hide DecodeArgsFrom;
    var m := if m.Some? then m.value else DEFAULT_MODRM;
    if |buffer| >= 6 && m.size < |buffer| {
      JumpArgIsImmediate(o, 0, buffer[0], buffer[1 + m.size..], 1 + m.size, prev, sizeOverride, m);
    }
  }

  lemma FieldsAreSane(table: Table, p: Prefixes, size: nat, buffer: seq<u8>, prev: Args)
    requires SaneTable(table) && buffer != [] && size + |buffer| == 16
    ensures var f := ReadFields(table, p, size, buffer, prev);
            f.Ok? ==> && Sane(f.value.o, f.value.hasModRM)
                      && (f.value.o.source[0] == JumpRel ==> f.value.args[0].location.Immediate?)
  {
    hide FromBytes, DecodeArgs, Sane;
    var index := buffer[0] as int + if p.twoBytes then 0x100 else 0;
    if index < OPCODE_TABLE_SIZE {
      var prop := table(index);
      assert SaneRow(prop);
      var parsed := FromBytes(buffer);
      if !prop.hasModRM {
        if prop.opcodes[0].source[0] == JumpRel {
          JumpArgsImmediate(prop.opcodes[0], buffer, prev, p.sizeOverride, None);
        }
      } else if parsed.Ok? {
        var o := prop.opcodes[parsed.value.modrm.reg];
        if o.source[0] == JumpRel {
          JumpArgsImmediate(o, buffer, prev, p.sizeOverride, Some(parsed.value));
        }
      }
    }
  }

  lemma FieldsForgetHistory(table: Table, p: Prefixes, size: nat, buffer: seq<u8>, a: Args, b: Args)
    requires buffer != [] && size + |buffer| == 16
    ensures ReadFields(table, p, size, buffer, a) == ReadFields(table, p, size, buffer, b)
  {
    hide FromBytes, DecodeArgs;
    forall o: Opcode, m: Option<ParsedModRM>
      ensures DecodeArgs(o, buffer, a, p.sizeOverride, m) == DecodeArgs(o, buffer, b, p.sizeOverride, m)
    {
      DecodeArgsOverwrites(o, buffer, a, b, p.sizeOverride, m);
    }
  }

  /** The cells of the array keep nothing of what they held before, except the
      arguments of a rep slot. */
  lemma FillHistoryIndependence(table: Table, s: State, eip: u32, w: bool, a: Slot, b: Slot)
    ensures Alike(DecodeAt(table, s, eip, w, a), DecodeAt(table, s, eip, w, b))
  {
    hide ReadFields, DecodeFields, ScanPrefixes;
    var window := Read(s.cpu.mem, eip, 16);
    if window.Ok? {
      var scan := ScanPrefixes(NO_PREFIXES, window.value, 0);
      if scan.Ok? && scan.value.1 < 16 && scan.value.0.rep == NoRep {
        FieldsForgetHistory(table, scan.value.0, scan.value.1, window.value[scan.value.1..], a.args, b.args);
      }
    }
  }

  lemma DecodesFrozen(table: Table, s: State, t: State, eip: u32, prev: Slot)
    requires SaneTable(table) && Frozen(s, t) && !Pipeline.InWriteable(eip)
    ensures DecodeAt(table, s, eip, false, prev) == DecodeAt(table, t, eip, false, prev)
  {
    hide ReadFields, ScanPrefixes, FieldsGas, SaneTable;
    LowReadsAgree(s.cpu.mem, t.cpu.mem, eip, 16);
    var window := Read(s.cpu.mem, eip, 16);
    if window.Ok? {
      var scan := ScanPrefixes(NO_PREFIXES, window.value, 0);
      if scan.Ok? && scan.value.1 < 16 && scan.value.0.rep == NoRep {
        FieldsAreSane(table, scan.value.0, scan.value.1, window.value[scan.value.1..], prev.args);
      }
    }
  }

  /** jmp_rel and call_rel with an immediate displacement go where the decoder
      went on reading. */
  lemma DirectJump(c: Cpu, p: Slot, v: SizedValue)
    requires p.op.JumpRelative? || p.op.CallRelative?
    requires p.args[0].location == Immediate(v) && v.U32Sx().Ok? && !p.sizeOverride
    ensures var e := CpuOp(c, p.op, p);
            && Harmless(c, e)
            && (e.Done? ==> e.value.eip == JumpBase(c.eip, p.eipSize, v.U32Sx().value))
  {
    hide PushReturn, JumpBase, GetReg;
    JumpsHarmless(c, p);
    CallsHarmless(c, p);
    PushReturnQuiet(c, p);
  }

  /** An instruction that decodes without a rep prefix has sane fields. */
  lemma DecodedFields(table: Table, s: State, eip: u32, w: bool, prev: Slot) returns (f: Fields)
    requires SaneTable(table)
    requires var d := DecodeAt(table, s, eip, w, prev); d.Ok? && !IsRep(d.value.slot)
    ensures Sane(f.o, f.hasModRM) && (f.o.source[0] == JumpRel ==> f.args[0].location.Immediate?)
    ensures DecodeAt(table, s, eip, w, prev) == DecodeFields(s, f, eip, w)
  {
    hide ReadFields, ScanPrefixes, FieldsGas, SaneTable, Sane;
    var window := Read(s.cpu.mem, eip, 16).value;
    var (p, size) := ScanPrefixes(NO_PREFIXES, window, 0).value;
    FieldsAreSane(table, p, size, window[size..], prev.args);
    f := ReadFields(table, p, size, window[size..], prev.args).value;
  }

  lemma RepsStop(table: Table, s: State, eip: u32, w: bool, prev: Slot)
    requires SaneTable(table)
    ensures var d := DecodeAt(table, s, eip, w, prev);
            d.Ok? && (w || IsRep(d.value.slot)) ==> d.value.stop
  {
    hide ReadFields, ScanPrefixes, FieldsGas, SaneTable;
    var d := DecodeAt(table, s, eip, w, prev);
    if d.Ok? && IsRep(d.value.slot) {
      var window := Read(s.cpu.mem, eip, 16).value;
      var (p, size) := ScanPrefixes(NO_PREFIXES, window, 0).value;
      if p.rep == NoRep {
        FieldsAreSane(table, p, size, window[size..], prev.args);
      }
    }
  }

  lemma ExecOnCpu(hv: Hypervisor, p: Slot, t: State)
    requires OnCpu(p.op)
    ensures Exec(hv, p, t) == Lift(t, CpuOp(t.cpu, p.op, p))
  {
    hide CpuOp, RepLoop, RepGas;
  }

  lemma PlainPrediction(hv: Hypervisor, s: State, t: State, f: Fields, eip: u32)
    requires Sane(f.o, f.hasModRM) && f.o.behavior == Plain && t.cpu.eip == eip
    ensures var d := DecodeFields(s, f, eip, false).value; AsPredicted(d, t, Exec(hv, d.slot, t))
  {
    hide CpuOp, FieldsGas, Exec, GetArg, Preserves;
    var d := DecodeFields(s, f, eip, false).value;
    PlainOpsQuiet(t.cpu, d.slot.op, d.slot);
    ExecOnCpu(hv, d.slot, t);
  }

  lemma JumpPrediction(hv: Hypervisor, s: State, t: State, f: Fields, eip: u32)
    requires Sane(f.o, f.hasModRM) && f.o.behavior == RelativeJump && f.args[0].location.Immediate? && t.cpu.eip == eip
    requires DecodeFields(s, f, eip, false).Ok?
    ensures var d := DecodeFields(s, f, eip, false).value; AsPredicted(d, t, Exec(hv, d.slot, t))
  {
    hide CpuOp, FieldsGas, Exec, Preserves, JumpBase;
    var d := DecodeFields(s, f, eip, false).value;
    DirectJump(t.cpu, d.slot, f.args[0].location.v);
    ExecOnCpu(hv, d.slot, t);
  }

  lemma PredictionsHold(table: Table, hv: Hypervisor, s: State, t: State, eip: u32, prev: Slot)
    requires SaneTable(table) && t.cpu.eip == eip
    requires DecodeAt(table, s, eip, false, prev).Ok? && !DecodeAt(table, s, eip, false, prev).value.stop
    ensures var d := DecodeAt(table, s, eip, false, prev).value; AsPredicted(d, t, Exec(hv, d.slot, t))
  {
    RepsStop(table, s, eip, false, prev);
    var f := DecodedFields(table, s, eip, false, prev);
    hide DecodeAt, Exec, AsPredicted;
    if f.o.behavior == Plain {
      PlainPrediction(hv, s, t, f, eip);
    } else {
      JumpPrediction(hv, s, t, f, eip);
    }
  }

  lemma MachineKeepsFrozen(table: Table, hv: Hypervisor)
    requires RespectsFrozen(hv)
    ensures KeepsFrozen(MachineOf(table, hv))
  {
    hide Exec, Frozen;
    forall p: Slot, s: State ensures Frozen(s, Left(Exec(hv, p, s))) {
      ExecFrozen(hv, p, s);
    }
  }

  lemma MachinePredicts(table: Table, hv: Hypervisor)
    requires SaneTable(table)
    ensures FollowsPredictions(MachineOf(table, hv)) && StopsInWriteable(MachineOf(table, hv))
  {
    hide DecodeAt, Exec, AsPredicted;
    var m := MachineOf(table, hv);
    forall s: State, eip: u32, p: Slot | m.decode(s, eip, true, p).Ok?
      ensures m.decode(s, eip, true, p).value.stop
    {
      RepsStop(table, s, eip, true, p);
    }
    forall s: State, t: State, eip: u32, p: Slot | m.decode(s, eip, false, p).Ok? && !m.decode(s, eip, false, p).value.stop && t.cpu.eip == eip
      ensures AsPredicted(m.decode(s, eip, false, p).value, t, m.exec(m.decode(s, eip, false, p).value.slot, t))
    {
      PredictionsHold(table, hv, s, t, eip, p);
    }
  }

  /** Every sane table gives a machine the refinement theorem applies to. */
  lemma MachineConforms(table: Table, hv: Hypervisor)
    requires SaneTable(table) && RespectsFrozen(hv)
    ensures Conforms(MachineOf(table, hv))
  {
    hide DecodeAt, Exec, Frozen, AsPredicted, Alike;
    var m := MachineOf(table, hv);
    forall p: Slot, s: State ensures Frozen(s, Left(m.exec(p, s))) {
      ExecFrozen(hv, p, s);
    }
    forall s: State, t: State, eip: u32, p: Slot | Frozen(s, t) && !Pipeline.InWriteable(eip)
      ensures m.decode(s, eip, false, p) == m.decode(t, eip, false, p)
    {
      DecodesFrozen(table, s, t, eip, p);
    }
    forall s: State, eip: u32, w: bool, a: Slot, b: Slot
      ensures Alike(m.decode(s, eip, w, a), m.decode(s, eip, w, b))
    {
      FillHistoryIndependence(table, s, eip, w, a, b);
    }
    MachinePredicts(table, hv);
    forall p: Slot, s: State | p.op == Nop ensures m.exec(p, s) == Done(s) {
      NopRuns(hv, p, s);
    }
  }

  lemma NopRuns(hv: Hypervisor, p: Slot, s: State)
    requires p.op == Nop
    ensures Exec(hv, p, s) == Done(s)
  {
    hide RepLoop, RepGas;
  }
}

// Where repe and repne stop over scas and cmps.

module StringStops {
  import opened Words
  import opened Errors
  import opened Structs
  import FlagBits
  import opened Memory
  import opened VMState
  import opened Opcodes
  import Fetch
  import Arithmetic
  import opened Ops
  import Compare
  import opened Strings

  predicate IsComparing(op: Op) {
    op.Scas? || op.Cmps?
  }

  /** The address of element i, counted from `a` in the given direction. */
  function ElementAddress(a: u32, i: nat, size: ValueSize, down: bool): u32 {
    if i == 0 then a
    else
      Wrap32(ElementAddress(a, i - 1, size, down) as int + Stride(size, down))
  }

  function Stride(size: ValueSize, down: bool): int {
    if down then -(SizeInBytes(size) as int) else SizeInBytes(size)
  }

  lemma {:induction false} AddressIsLinear(a: u32, i: nat, size: ValueSize, down: bool)
    ensures ElementAddress(a, i, size, down) == Wrap32(a as int + i * Stride(size, down))
  {
    hide Stride;
    if i > 0 {
      hide Wrap32;
      AddressIsLinear(a, i - 1, size, down);
      var d := Stride(size, down);
      assert i * d == (i - 1) * d + d;
      WrapShifts(a as int + (i - 1) * d, d);
    }
  }

  lemma WrapShifts(x: int, k: int)
    ensures Wrap32(Wrap32(x) as int + k) == Wrap32(x + k)
  {
  }

  lemma {:induction false} AddressShifts(a: u32, i: nat, size: ValueSize, down: bool)
    ensures ElementAddress(ElementAddress(a, 1, size, down), i, size, down) == ElementAddress(a, i + 1, size, down)
  {
    if i > 0 {
      AddressShifts(a, i - 1, size, down);
    } else {
      assert ElementAddress(a, 1, size, down) == ElementAddress(a, 0 + 1, size, down);
    }
  }

  /** Whether element i compares equal: with the accumulator for scas, between
      the two strings for cmps. */
  function ElementsEqual(c: Cpu, op: Op, size: ValueSize, i: nat): Result<bool>
    requires IsComparing(op)
  {
    var y :- GetMem(c.mem, ElementAddress(c.regs[EDI], i, size, c.flags.direction), size);
    if op.Scas? then Ok(GetReg(c.regs, EAX, size) == y)
    else
      var x :- GetMem(c.mem, ElementAddress(c.regs[ESI], i, size, c.flags.direction), size);
      Ok(x == y)
  }

  /** The cpu after i elements, up to the flags that the comparison sets. */
  ghost predicate After(c: Cpu, t: Cpu, op: Op, size: ValueSize, i: nat)
    requires IsComparing(op)
  {
    && t.mem == c.mem && t.eip == c.eip && t.host == c.host && t.flags.direction == c.flags.direction
    && t.regs[EDI] == ElementAddress(c.regs[EDI], i, size, c.flags.direction)
    && t.regs[ESI] == (if op.Cmps? then ElementAddress(c.regs[ESI], i, size, c.flags.direction) else c.regs[ESI])
    && t.regs[EAX] == c.regs[EAX] && t.regs[EDX] == c.regs[EDX] && t.regs[EBX] == c.regs[EBX]
    && t.regs[ESP] == c.regs[ESP] && t.regs[EBP] == c.regs[EBP]
  }

  /** Values of one size are equal exactly when their numbers are. */
  lemma SameNumber(x: SizedValue, y: SizedValue, size: ValueSize)
    requires size in {SizeByte, SizeWord, SizeDword}
    requires size == SizeByte ==> x.Byte? && y.Byte?
    requires size == SizeWord ==> x.Word? && y.Word?
    requires size == SizeDword ==> x.Dword? && y.Dword?
    ensures x.Number() < Arithmetic.Modulus(size) && y.Number() < Arithmetic.Modulus(size)
    ensures x.Number() % 0x1_0000_0000 == x.Number() && y.Number() % 0x1_0000_0000 == y.Number()
    ensures x == y <==> x.Number() == y.Number()
  {
  }

  lemma ReadsSized(m: Mem, a: u32, size: ValueSize)
    requires size in {SizeByte, SizeWord, SizeDword} && GetMem(m, a, size).Ok?
    ensures var v := GetMem(m, a, size).value;
            (size == SizeByte ==> v.Byte?) && (size == SizeWord ==> v.Word?) && (size == SizeDword ==> v.Dword?)
  {
  }

  /** The zero flag of a comparison of two values of one size. */
  lemma ZeroMeansEqual(f: FlagBits.Flags, x: SizedValue, y: SizedValue, size: ValueSize)
    requires size in {SizeByte, SizeWord, SizeDword}
    requires size == SizeByte ==> x.Byte? && y.Byte?
    requires size == SizeWord ==> x.Word? && y.Word?
    requires size == SizeDword ==> x.Dword? && y.Dword?
    ensures var g := Arithmetic.SubWithFlags(f, x.Number() % 0x1_0000_0000, y.Number() % 0x1_0000_0000, size).1;
            g.zero == (x == y) && g.direction == f.direction
  {
    SameNumber(x, y, size);
    Compare.CmpFlags(f, x.Number(), y.Number(), size);
  }

  /** One comparing turn: it succeeds exactly when the element can be read, sets
      the zero flag by it, and moves on by one element. */
  lemma ComparingTurn(c: Cpu, op: Op, o: bool)
    requires IsComparing(op) && RepCount(c, o) > 0 && ElementsEqual(c, op, op.width.Size(o), 0).Ok?
    ensures Turn(c, op, o).Done?
    ensures var t := Turn(c, op, o).value;
            && After(c, t, op, op.width.Size(o), 1)
            && t.flags.zero == ElementsEqual(c, op, op.width.Size(o), 0).value
  {
    hide GetMem, Arithmetic.SubWithFlags, Wrap32;
    var size := op.width.Size(o);
    var down := c.flags.direction;
    assert ElementAddress(c.regs[EDI], 0, size, down) == c.regs[EDI];
    assert ElementAddress(c.regs[ESI], 0, size, down) == c.regs[ESI];
    var y := GetMem(c.mem, c.regs[EDI], size).value;
    ReadsSized(c.mem, c.regs[EDI], size);
    if op.Scas? {
      ZeroMeansEqual(c.flags, GetReg(c.regs, EAX, size), y, size);
    } else {
      ReadsSized(c.mem, c.regs[ESI], size);
      ZeroMeansEqual(c.flags, GetMem(c.mem, c.regs[ESI], size).value, y, size);
    }
  }

  /** Looking on from the state after one turn. */
  lemma ElementsShift(c: Cpu, t: Cpu, op: Op, o: bool, i: nat)
    requires IsComparing(op) && After(c, t, op, op.width.Size(o), 1)
    ensures ElementsEqual(t, op, op.width.Size(o), i) == ElementsEqual(c, op, op.width.Size(o), i + 1)
  {
    hide GetMem, ElementAddress;
    var size := op.width.Size(o);
    AddressShifts(c.regs[EDI], i, size, c.flags.direction);
    AddressShifts(c.regs[ESI], i, size, c.flags.direction);
  }

  lemma AfterShifts(c: Cpu, t: Cpu, u: Cpu, op: Op, o: bool, i: nat)
    requires IsComparing(op) && After(c, t, op, op.width.Size(o), 1) && After(t, u, op, op.width.Size(o), i)
    ensures After(c, u, op, op.width.Size(o), i + 1)
  {
    hide ElementAddress;
    AddressShifts(c.regs[EDI], i, op.width.Size(o), c.flags.direction);
    AddressShifts(c.regs[ESI], i, op.width.Size(o), c.flags.direction);
  }

  /** j elements that go on, and one more. */
  lemma {:induction false} ComparingTurns(c: Cpu, op: Op, o: bool, until: bool, j: nat)
    requires IsComparing(op) && j < RepCount(c, o)
    requires forall i :: 0 <= i <= j ==> ElementsEqual(c, op, op.width.Size(o), i).Ok?
    requires forall i :: 0 <= i < j ==> ElementsEqual(c, op, op.width.Size(o), i).value != until
    ensures GoesOn(c, op, o, until, j) && Turns(c, op, o, j + 1).Done?
    ensures var t := Turns(c, op, o, j + 1).value;
            && After(c, t, op, op.width.Size(o), j + 1)
            && t.flags.zero == ElementsEqual(c, op, op.width.Size(o), j).value
            && RepCount(t, o) == RepCount(c, o) - (j + 1)
    decreases j
  {
    hide ElementsEqual, After, Turn, RepCount;
    ComparingTurn(c, op, o);
    TurnCounts(c, op, o);
    var t := Turn(c, op, o).value;
    assert Turns(c, op, o, j + 1) == Turns(t, op, o, j);
    if j == 0 {
    } else {
      forall i | 0 <= i <= j - 1
        ensures ElementsEqual(t, op, op.width.Size(o), i) == ElementsEqual(c, op, op.width.Size(o), i + 1)
      {
        ElementsShift(c, t, op, o, i);
      }
      ComparingTurns(t, op, o, until, j - 1);
      AfterShifts(c, t, Turns(t, op, o, j).value, op, o, j);
    }
  }

  /** repe (`until` false) and repne (`until` true) over cmps and scas stop just
      past the least element j that compares unlike (like), or at the end of the
      count: ECX, EDI, ESI and ZF are those of that element, memory is untouched. */
  lemma RepComparesStop(hv: Hypervisor, p: Fetch.Slot, s: State, cost: u64, until: bool, j: nat)
    requires RepFlagOpcode(p.opcode) && j < RepCount(s.cpu, p.sizeOverride) && s.gas > j * cost
    requires var op := RepFunction(p);
             var size := op.width.Size(p.sizeOverride);
             && (forall i :: 0 <= i <= j ==> ElementsEqual(s.cpu, op, size, i).Ok?)
             && (forall i :: 0 <= i < j ==> ElementsEqual(s.cpu, op, size, i).value != until)
             && (ElementsEqual(s.cpu, op, size, j).value == until || j + 1 == RepCount(s.cpu, p.sizeOverride))
    ensures var r := RepLoop(hv, p, s, cost, until);
            var op := RepFunction(p);
            var size := op.width.Size(p.sizeOverride);
            && r.Done? && After(s.cpu, r.value.cpu, op, size, j + 1)
            && r.value.cpu.flags.zero == ElementsEqual(s.cpu, op, size, j).value
            && RepCount(r.value.cpu, p.sizeOverride) == RepCount(s.cpu, p.sizeOverride) - (j + 1)
  {
    hide ElementsEqual, After, Turns, GoesOn, RepLoop, RepCount, RepFlagOpcode, RepFunction, Capped;
    ComparingTurns(s.cpu, RepFunction(p), p.sizeOverride, until, j);
    RepStopsAt(hv, p, s, cost, until, j);
  }

  lemma StringsNotInAlu(kind: AluKind, i: int)
    ensures !IsStringOp(AluForm(kind, i).opcodes[0].op)
  {
    hide Sane, SaneRow;
  }

  lemma StringsNotInMoves(i: int)
    ensures !IsStringOp(StackRow(i).opcodes[0].op) && !IsStringOp(MovRow(i).opcodes[0].op)
  {
    hide Sane, SaneRow;
  }

  lemma StringsNotInJumps(i: int)
    ensures !IsStringOp(JumpRow(i).opcodes[0].op) && !IsStringOp(ControlRow(i).opcodes[0].op)
  {
    hide Sane, SaneRow;
  }

  lemma StringRows(i: int)
    requires 0xA4 <= i <= 0xAF
    ensures var op := OtherRow(i).opcodes[0].op;
            && (IsComparing(op) <==> i in {0xA6, 0xA7, 0xAE, 0xAF})
            && (IsStringOp(op) <==> i in {0xA4, 0xA5, 0xA6, 0xA7, 0xAA, 0xAB, 0xAC, 0xAD, 0xAE, 0xAF})
  {
    hide Sane, SaneRow, AluGroup, RotateGroup, MulDivGroup;
  }

  lemma StringsNotInGroups(w: OpWidth, rm: ArgSpec, b: ArgSpec)
    requires ArgBytes(rm.0, rm.1) + ArgBytes(b.0, b.1) <= 4
    ensures !IsStringOp(AluGroup(w, rm, b).opcodes[0].op) && !IsStringOp(RotateGroup(w, rm, b).opcodes[0].op)
    ensures !IsStringOp(MulDivGroup(w, rm).opcodes[0].op)
  {
    hide Sane, SaneRow;
  }

  lemma StringsNotElsewhere(i: int)
    requires !(0xA4 <= i <= 0xAF)
    ensures !IsStringOp(OtherRow(i).opcodes[0].op)
  {
    hide Sane, SaneRow, AluGroup, RotateGroup, MulDivGroup, StringRow;
    forall w: OpWidth, rm: ArgSpec, b: ArgSpec | ArgBytes(rm.0, rm.1) + ArgBytes(b.0, b.1) <= 4
      ensures !IsStringOp(AluGroup(w, rm, b).opcodes[0].op) && !IsStringOp(RotateGroup(w, rm, b).opcodes[0].op)
      ensures !IsStringOp(MulDivGroup(w, rm).opcodes[0].op)
    {
      StringsNotInGroups(w, rm, b);
    }
  }

  /** The opcodes the rep loops accept are the string opcodes of the table, and
      the flag is tested after those that compare. */
  lemma RepListsAreTheTable(opcode: u8)
    ensures RepFlagOpcode(opcode) <==> IsComparing(Lookup(opcode).opcodes[0].op)
    ensures StringOpcode(opcode) <==> IsStringOp(Lookup(opcode).opcodes[0].op)
  {
    hide Sane, SaneRow, AluForm, StackRow, MovRow, JumpRow, ControlRow, OtherRow;
    StringsNotInAlu(Add, opcode);
    StringsNotInAlu(Adc, opcode as int - 0x10);
    StringsNotInAlu(Sub, opcode as int - 0x28);
    StringsNotInAlu(Cmp, opcode as int - 0x38);
    StringsNotInMoves(opcode);
    StringsNotInJumps(opcode);
    if 0xA4 <= opcode <= 0xAF { StringRows(opcode); } else { StringsNotElsewhere(opcode); }
  }

  /** A6 and A7 are cmps, AE and AF scas, in bytes and in words or dwords. */
  lemma ComparingFunctions(p: Fetch.Slot)
    requires RepFlagOpcode(p.opcode)
    ensures RepFunction(p) == (if p.opcode == 0xA6 then Cmps(Narrow) else if p.opcode == 0xA7 then Cmps(Native)
                               else if p.opcode == 0xAE then Scas(Narrow) else Scas(Native))
  {
    hide Sane, SaneRow;
  }

  /** The executed instruction: repe goes on while elements compare equal, repne
      while they differ. */
  lemma RepStops(hv: Hypervisor, p: Fetch.Slot, s: State, op: Op, j: nat)
    requires p.op.Repe? || p.op.Repne?
    requires || (p.opcode == 0xA6 && op == Cmps(Narrow)) || (p.opcode == 0xA7 && op == Cmps(Native))
             || (p.opcode == 0xAE && op == Scas(Narrow)) || (p.opcode == 0xAF && op == Scas(Native))
    requires j < RepCount(s.cpu, p.sizeOverride) && s.gas > j * RepGas(s.costs, p)
    requires var size := op.width.Size(p.sizeOverride);
             && (forall i :: 0 <= i <= j ==> ElementsEqual(s.cpu, op, size, i).Ok?)
             && (forall i :: 0 <= i < j ==> ElementsEqual(s.cpu, op, size, i).value == p.op.Repe?)
             && (ElementsEqual(s.cpu, op, size, j).value == p.op.Repne? || j + 1 == RepCount(s.cpu, p.sizeOverride))
    ensures var r := Exec(hv, p, s);
            var size := op.width.Size(p.sizeOverride);
            && r.Done? && After(s.cpu, r.value.cpu, op, size, j + 1)
            && r.value.cpu.flags.zero == ElementsEqual(s.cpu, op, size, j).value
            && RepCount(r.value.cpu, p.sizeOverride) == RepCount(s.cpu, p.sizeOverride) - (j + 1)
  {
    hide ElementsEqual, After, RepLoop, RepCount, RepFunction, RepGas;
    ComparingFunctions(p);
    RepComparesStop(hv, p, s, RepGas(s.costs, p), p.op.Repne?, j);
  }
}

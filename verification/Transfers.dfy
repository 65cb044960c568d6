// Moving values: mov, lea, the stack, string elements and the register pair.

module Transfers {
  import opened Words
  import opened Errors
  import opened Structs
  import FlagBits
  import opened Memory
  import opened VMState
  import opened Opcodes
  import opened Fetch
  import opened Arithmetic
  import opened Ops
  import opened Places
  import Compare
  import MulDiv
  import Rotate

  // ---------- mov, lea ----------

  /** mov: the first operand becomes what the second reads as, cut to its width. */
  lemma Moves(c: Cpu, p: Slot, v: SizedValue, size: ValueSize)
    requires GetArg(c.regs, c.mem, p.args[1].location) == Ok(v) && IsPlace(c.regs, p.args[0].location, size)
    ensures var r := CpuOp(c, Mov, p);
            var loc := p.args[0].location;
            && (r.Done? ==> Reads(r.value, loc, size, v.Number() % Modulus(size)) && OnlyPlaceChanged(c, r.value, loc)
                            && r.value.flags == c.flags)
            && (HasSize(v, size) ==> (r.Done? <==> CanStore(c, loc, size)))
  {
    hide GetArg, SetArg, Reads, CanStore, OnlyPlaceChanged, IsPlace, Modulus;
    StoreThenRead(c, p.args[0].location, v, size);
  }

  /** lea: the first operand becomes the address of the second. */
  lemma LoadsAddress(c: Cpu, p: Slot, a: u32, size: ValueSize)
    requires GetArgLea(c.regs, p.args[1].location) == Ok(a) && IsPlace(c.regs, p.args[0].location, size)
    requires size == if p.sizeOverride then SizeWord else SizeDword
    ensures var r := CpuOp(c, Lea, p);
            var loc := p.args[0].location;
            && (r.Done? <==> CanStore(c, loc, size))
            && (r.Done? ==> Reads(r.value, loc, size, a % Modulus(size)) && OnlyPlaceChanged(c, r.value, loc)
                            && r.value.flags == c.flags)
  {
    hide GetArgLea, SetArg, Reads, CanStore, OnlyPlaceChanged, IsPlace;
    var v := if p.sizeOverride then Word(a % 0x1_0000) else Dword(a);
    StoreThenRead(c, p.args[0].location, v, size);
  }

  // ---------- the stack ----------

  function StackSize(p: Slot): ValueSize {
    if p.sizeOverride then SizeWord else SizeDword
  }

  /** push: ESP moves down, and the value is what lies there; nothing else changes. */
  lemma Pushes(c: Cpu, p: Slot, v: SizedValue)
    requires GetArg(c.regs, c.mem, p.args[0].location) == Ok(v) && !v.Qword? && (p.sizeOverride ==> !v.Dword?)
    ensures var r := CpuOp(c, PushArg, p);
            var n := SizeInBytes(StackSize(p));
            var top := Wrap32(c.regs[ESP] as int - n);
            && (r.Done? <==> top >= WRITEABLE_MEMORY && Inside(c.mem, top, n))
            && (r.Done? ==>
                  && r.value == c.(mem := r.value.mem, regs := c.regs[ESP := top])
                  && OnlyBytesChanged(c.mem, r.value.mem, top, n)
                  && Inside(r.value.mem, top, n) && LittleEndian(BytesAt(r.value.mem, top, n)) == v.Number())
  {
    hide GetArg, SetMem, GetMem, Inside, LittleEndian, OnlyBytesChanged;
    var top := Wrap32(c.regs[ESP] as int - SizeInBytes(StackSize(p)));
    if p.sizeOverride {
      StoreIsLittleEndian(c.mem, top, Word(v.Number()), SizeWord);
    } else {
      StoreIsLittleEndian(c.mem, top, Dword(v.Number()), SizeDword);
    }
    assert CpuOp(c, PushArg, p) == Push(c, v, p.sizeOverride);
  }

  /** pop: ESP moves up, and then the operand becomes what lay there. */
  lemma Pops(c: Cpu, p: Slot, size: ValueSize)
    requires Inside(c.mem, c.regs[ESP], SizeInBytes(StackSize(p)))
    requires IsPlace(WithReg(c, ESP, Wrap32(c.regs[ESP] + SizeInBytes(StackSize(p)))).regs, p.args[0].location, size)
    ensures var r := CpuOp(c, PopArg, p);
            var n := SizeInBytes(StackSize(p));
            var t := WithReg(c, ESP, Wrap32(c.regs[ESP] + n));
            var loc := p.args[0].location;
            && (size == StackSize(p) ==> (r.Done? <==> CanStore(t, loc, size)))
            && (r.Done? ==>
                  && Reads(r.value, loc, size, LittleEndian(BytesAt(c.mem, c.regs[ESP], n)) % Modulus(size))
                  && OnlyPlaceChanged(t, r.value, loc) && r.value.flags == c.flags)
  {
    hide SetArg, GetMem, Inside, LittleEndian, Reads, CanStore, OnlyPlaceChanged, IsPlace, Modulus, BytesAt;
    var t := WithReg(c, ESP, Wrap32(c.regs[ESP] + SizeInBytes(StackSize(p))));
    LoadIsLittleEndian(c.mem, c.regs[ESP], StackSize(p));
    var v := GetMem(c.mem, c.regs[ESP], StackSize(p)).value;
    StoreThenRead(t, p.args[0].location, v, size);
    assert CpuOp(c, PopArg, p) == SetArg(t, p.args[0].location, v);
  }

  // ---------- string elements ----------

  /** A pointer after one element: up, or down when the direction flag is set. */
  function Next(c: Cpu, r: u3, size: ValueSize): u32 {
    Wrap32(c.regs[r] as int + if c.flags.direction then -(SizeInBytes(size) as int) else SizeInBytes(size))
  }

  /** The number of an element in memory. */
  function Element(m: Mem, a: u32, size: ValueSize): nat
    requires Inside(m, a, SizeInBytes(size))
  {
    LittleEndian(BytesAt(m, a, SizeInBytes(size)))
  }

  lemma ElementLoads(m: Mem, a: u32, size: ValueSize)
    requires IsWidth(size)
    ensures GetMem(m, a, size).Ok? <==> Inside(m, a, SizeInBytes(size))
    ensures Inside(m, a, SizeInBytes(size)) ==>
              var v := GetMem(m, a, size).value;
              && HasSize(v, size) && v.Number() == Element(m, a, size) && v.Number() < Modulus(size)
  {
    hide GetMem, LittleEndian, Inside, BytesAt;
    LoadIsLittleEndian(m, a, size);
  }

  lemma StosStores(c: Cpu, size: ValueSize)
    requires IsWidth(size)
    ensures var r := StosOp(c, size);
            var n := SizeInBytes(size);
            && (r.Done? <==> c.regs[EDI] >= WRITEABLE_MEMORY && Inside(c.mem, c.regs[EDI], n))
            && (r.Done? ==>
                  && r.value == c.(mem := r.value.mem, regs := c.regs[EDI := Next(c, EDI, size)])
                  && OnlyBytesChanged(c.mem, r.value.mem, c.regs[EDI], n) && Inside(r.value.mem, c.regs[EDI], n)
                  && Element(r.value.mem, c.regs[EDI], size) == GetReg(c.regs, EAX, size).Number())
  {
    hide SetMem, GetMem, Inside, LittleEndian, OnlyBytesChanged, BytesAt, GetReg;
    RegisterNumber(c.regs, EAX, size);
    StoreIsLittleEndian(c.mem, c.regs[EDI], GetReg(c.regs, EAX, size), size);
  }

  /** stos: the accumulator goes where EDI points, and EDI moves on. */
  lemma StoresString(c: Cpu, p: Slot, w: OpWidth)
    ensures var r := CpuOp(c, Stos(w), p);
            var size := w.Size(p.sizeOverride);
            var n := SizeInBytes(size);
            && (r.Done? <==> c.regs[EDI] >= WRITEABLE_MEMORY && Inside(c.mem, c.regs[EDI], n))
            && (r.Done? ==>
                  && r.value == c.(mem := r.value.mem, regs := c.regs[EDI := Next(c, EDI, size)])
                  && OnlyBytesChanged(c.mem, r.value.mem, c.regs[EDI], n) && Inside(r.value.mem, c.regs[EDI], n)
                  && Element(r.value.mem, c.regs[EDI], size) == GetReg(c.regs, EAX, size).Number())
  {
    hide StosOp, GetMem, Inside, LittleEndian, OnlyBytesChanged, BytesAt, Element, GetReg;
    StosStores(c, w.Size(p.sizeOverride));
  }

  /** lods: the accumulator becomes what ESI points to, and ESI moves on. */
  lemma LoadsString(c: Cpu, p: Slot, w: OpWidth)
    ensures var r := CpuOp(c, Lods(w), p);
            var size := w.Size(p.sizeOverride);
            && (r.Done? <==> Inside(c.mem, c.regs[ESI], SizeInBytes(size)))
            && (r.Done? ==>
                  && r.value == c.(regs := r.value.regs) && r.value.regs[ESI] == Next(c, ESI, size)
                  && GetReg(r.value.regs, EAX, size).Number() == Element(c.mem, c.regs[ESI], size)
                  && OnlyRegisterChanged(c.regs[ESI := Next(c, ESI, size)], r.value.regs, EAX, size))
  {
    hide GetMem, Inside, LittleEndian, BytesAt, GetReg, VMState.SetReg, OnlyRegisterChanged;
    var size := w.Size(p.sizeOverride);
    ElementLoads(c.mem, c.regs[ESI], size);
    assert CpuOp(c, Lods(w), p) == LodsOp(c, size);
    if Inside(c.mem, c.regs[ESI], SizeInBytes(size)) {
      var v := GetMem(c.mem, c.regs[ESI], size).value;
      LoadsAndMoves(c.regs, v, Next(c, ESI, size), size);
    }
  }

  lemma LoadsAndMoves(regs: Regs, v: SizedValue, next: u32, size: ValueSize)
    requires IsWidth(size) && HasSize(v, size)
    ensures var t := SetReg(regs, EAX, v)[ESI := next];
            && t == SetReg(regs[ESI := next], EAX, v)
            && GetReg(t, EAX, size) == v && OnlyRegisterChanged(regs[ESI := next], t, EAX, size)
  {
    RegisterReadsBack(regs[ESI := next], EAX, v, size);
    var x := SetReg(regs, EAX, v)[EAX];
    assert SetReg(regs, EAX, v) == regs[EAX := x];
    assert regs[EAX := x][ESI := next] == regs[ESI := next][EAX := x];
  }

  lemma MovsMoves(c: Cpu, size: ValueSize)
    requires IsWidth(size)
    ensures var r := MovsOp(c, size);
            var n := SizeInBytes(size);
            && (r.Done? <==> && Inside(c.mem, c.regs[ESI], n)
                             && c.regs[EDI] >= WRITEABLE_MEMORY && Inside(c.mem, c.regs[EDI], n))
            && (r.Done? ==>
                  && r.value == c.(mem := r.value.mem, regs := c.regs[EDI := Next(c, EDI, size)][ESI := Next(c, ESI, size)])
                  && OnlyBytesChanged(c.mem, r.value.mem, c.regs[EDI], n) && Inside(r.value.mem, c.regs[EDI], n)
                  && Element(r.value.mem, c.regs[EDI], size) == Element(c.mem, c.regs[ESI], size))
  {
    hide SetMem, GetMem, Inside, LittleEndian, OnlyBytesChanged, BytesAt;
    ElementLoads(c.mem, c.regs[ESI], size);
    if Inside(c.mem, c.regs[ESI], SizeInBytes(size)) {
      StoreIsLittleEndian(c.mem, c.regs[EDI], GetMem(c.mem, c.regs[ESI], size).value, size);
    }
  }

  /** movs: the element ESI points to goes where EDI points, and both move on. */
  lemma MovesString(c: Cpu, p: Slot, w: OpWidth)
    ensures var r := CpuOp(c, Movs(w), p);
            var size := w.Size(p.sizeOverride);
            var n := SizeInBytes(size);
            && (r.Done? <==> && Inside(c.mem, c.regs[ESI], n)
                             && c.regs[EDI] >= WRITEABLE_MEMORY && Inside(c.mem, c.regs[EDI], n))
            && (r.Done? ==>
                  && r.value == c.(mem := r.value.mem, regs := c.regs[EDI := Next(c, EDI, size)][ESI := Next(c, ESI, size)])
                  && OnlyBytesChanged(c.mem, r.value.mem, c.regs[EDI], n) && Inside(r.value.mem, c.regs[EDI], n)
                  && Element(r.value.mem, c.regs[EDI], size) == Element(c.mem, c.regs[ESI], size))
  {
    hide MovsOp, GetMem, Inside, LittleEndian, OnlyBytesChanged, BytesAt, Element, GetReg;
    MovsMoves(c, w.Size(p.sizeOverride));
  }

  /** Every condition code decides its relation between these two numbers. */
  ghost predicate Compares(f: FlagBits.Flags, x: nat, y: nat, size: ValueSize)
    requires x < 0x1_0000_0000 && y < 0x1_0000_0000
  {
    forall opcode: u8 :: CcMatches(opcode, f) <==> Compare.Relation(opcode % 16, x, y, size)
  }

  lemma DifferenceCompares(f: FlagBits.Flags, x: nat, y: nat, size: ValueSize)
    requires IsWidth(size) && x < Modulus(size) && y < Modulus(size)
    ensures x % 0x1_0000_0000 == x && y % 0x1_0000_0000 == y
    ensures Compares(SubWithFlags(f, x, y, size).1, x, y, size) && SubWithFlags(f, x, y, size).1.direction == f.direction
  {
    SmallMod(x, 0x1_0000_0000);
    SmallMod(y, 0x1_0000_0000);
    Compare.SubFlags(f, x, y, size);
    hide SubWithFlags, CcMatches, Compare.Relation, Modulus;
    forall opcode: u8
      ensures CcMatches(opcode, SubWithFlags(f, x, y, size).1) <==> Compare.Relation(opcode % 16, x, y, size)
    {
      Compare.ConditionCodes(f, opcode, x, y, size);
    }
  }

  /** cmps: the element ESI points to is compared with the one EDI points to. */
  lemma ComparesStrings(c: Cpu, p: Slot, w: OpWidth)
    ensures var r := CpuOp(c, Cmps(w), p);
            var size := w.Size(p.sizeOverride);
            var n := SizeInBytes(size);
            && (r.Done? <==> Inside(c.mem, c.regs[ESI], n) && Inside(c.mem, c.regs[EDI], n))
            && (r.Done? ==>
                  && r.value == c.(flags := r.value.flags, regs := c.regs[EDI := Next(c, EDI, size)][ESI := Next(c, ESI, size)])
                  && Element(c.mem, c.regs[ESI], size) < 0x1_0000_0000 && Element(c.mem, c.regs[EDI], size) < 0x1_0000_0000
                  && Compares(r.value.flags, Element(c.mem, c.regs[ESI], size), Element(c.mem, c.regs[EDI], size), size)
                  && r.value.flags.direction == c.flags.direction)
  {
    hide GetMem, Inside, LittleEndian, BytesAt, Element, SubWithFlags, Compares;
    var size := w.Size(p.sizeOverride);
    ElementLoads(c.mem, c.regs[ESI], size);
    ElementLoads(c.mem, c.regs[EDI], size);
    assert CpuOp(c, Cmps(w), p) == CmpsOp(c, size);
    if Inside(c.mem, c.regs[ESI], SizeInBytes(size)) && Inside(c.mem, c.regs[EDI], SizeInBytes(size)) {
      DifferenceCompares(c.flags, Element(c.mem, c.regs[ESI], size), Element(c.mem, c.regs[EDI], size), size);
    }
  }

  /** scas: the accumulator is compared with the element EDI points to. */
  lemma ScansString(c: Cpu, p: Slot, w: OpWidth)
    ensures var r := CpuOp(c, Scas(w), p);
            var size := w.Size(p.sizeOverride);
            var x := GetReg(c.regs, EAX, size).Number();
            && (r.Done? <==> Inside(c.mem, c.regs[EDI], SizeInBytes(size)))
            && (r.Done? ==>
                  && r.value == c.(flags := r.value.flags, regs := c.regs[EDI := Next(c, EDI, size)])
                  && x < 0x1_0000_0000 && Element(c.mem, c.regs[EDI], size) < 0x1_0000_0000
                  && Compares(r.value.flags, x, Element(c.mem, c.regs[EDI], size), size)
                  && r.value.flags.direction == c.flags.direction)
  {
    hide GetMem, Inside, LittleEndian, BytesAt, Element, SubWithFlags, Compares, GetReg;
    var size := w.Size(p.sizeOverride);
    ElementLoads(c.mem, c.regs[EDI], size);
    RegisterNumber(c.regs, EAX, size);
    SameSizeConverts(GetReg(c.regs, EAX, size), size);
    assert CpuOp(c, Scas(w), p) == ScasOp(c, size);
    if Inside(c.mem, c.regs[EDI], SizeInBytes(size)) {
      DifferenceCompares(c.flags, GetReg(c.regs, EAX, size).Number(), Element(c.mem, c.regs[EDI], size), size);
    }
  }

  /** std and cld choose the direction, and nothing else. */
  lemma ChoosesDirection(c: Cpu, p: Slot)
    ensures CpuOp(c, SetDirection, p) == Done(c.(flags := c.flags.(direction := true)))
    ensures CpuOp(c, ClearDirection, p) == Done(c.(flags := c.flags.(direction := false)))
  {
  }

  // ---------- mul, div ----------

  /** The register pair as a number: AX, DX:AX or EDX:EAX. */
  function PairNumber(regs: Regs, size: ValueSize): nat {
    if size == SizeByte then GetReg(regs, EAX, SizeWord).Number()
    else GetReg(regs, EDX, size).Number() * Modulus(size) + GetReg(regs, EAX, size).Number()
  }

  /** The two halves hold these numbers, and no other register byte has changed. */
  ghost predicate PairHolds(regs: Regs, t: Regs, low: nat, high: nat, size: ValueSize) {
    var upper := if size == SizeByte then AH else EDX;
    && GetReg(t, EAX, size).Number() == low && GetReg(t, upper, size).Number() == high
    && (forall q: u3, k: nat :: k < 4 && !Names(EAX, size, q, k) && !Names(upper, size, q, k) ==>
          RegByte(t, q, k) == RegByte(regs, q, k))
  }

  lemma SetsPair(regs: Regs, low: nat, high: nat, size: ValueSize)
    requires IsWidth(size) && low < Modulus(size) && high < Modulus(size)
    ensures PairHolds(regs, SetPair(regs, low, high, size), low, high, size)
  {
    hide GetReg, RegByte, Names, Modulus;
    var upper: u3 := if size == SizeByte then AH else EDX;
    var v, w := Sized(low, size), Sized(high, size);
    var t := SetReg(regs, EAX, v);
    FitsSize(low, size);
    FitsSize(high, size);
    RegisterReadsBack(regs, EAX, v, size);
    RegisterReadsBack(t, upper, w, size);
    LowSurvives(t, w, size);
    assert SetPair(regs, low, high, size) == SetReg(t, upper, w);
  }

  lemma FitsSize(n: nat, size: ValueSize)
    requires IsWidth(size) && n < Modulus(size)
    ensures HasSize(Sized(n, size), size) && Sized(n, size).Number() == n
  {
  }

  lemma LowSurvives(t: Regs, w: SizedValue, size: ValueSize)
    requires IsWidth(size) && HasSize(w, size)
    ensures GetReg(SetReg(t, if size == SizeByte then AH else EDX, w), EAX, size) == GetReg(t, EAX, size)
  {
    if size == SizeByte { SetHighByte(t[EAX], w.b); }
  }

  lemma PairIsPair(regs: Regs, size: ValueSize)
    requires IsWidth(size)
    ensures Pair(regs, size) == PairNumber(regs, size)
  {
  }

  /** The pair holds the product, and carry and overflow tell whether it needs the
      upper half. */
  ghost predicate Multiplied(c: Cpu, r: CpuEffect<Cpu>, product: nat, size: ValueSize) {
    var m := Modulus(size);
    && r.Done? && PairHolds(c.regs, r.value.regs, product % m, product / m, size)
    && r.value == c.(regs := r.value.regs, flags := c.flags.(carry := product >= m, overflow := product >= m))
  }

  lemma MulMultiplies(c: Cpu, p: Slot, size: ValueSize, v: nat)
    requires IsWidth(size) && Reads(c, p.args[0].location, size, v)
    ensures Multiplied(c, MulOp(c, p, size), Product(GetReg(c.regs, EAX, size).Number(), v), size)
  {
    var m := Modulus(size);
    var a := GetReg(c.regs, EAX, size).Number();
    FactorReads(c, p, size, v);
    RegisterNumber(c.regs, EAX, size);
    SameSizeConverts(GetReg(c.regs, EAX, size), size);
    ProductHalves(a, v, m);
    var x := Product(a, v);
    MulUnfolds(c, p, size, v);
    hide GetArg, GetReg, SetPair, Factor, Modulus, PairHolds, Reads, Product, LowHalf, HighHalf, MulOp;
    SetsPair(c.regs, LowHalf(x, m), HighHalf(x, m), size);
  }

  lemma MulUnfolds(c: Cpu, p: Slot, size: ValueSize, v: u32)
    requires GetArg(c.regs, c.mem, p.args[0].location).Ok? && Factor(GetArg(c.regs, c.mem, p.args[0].location).value, size) == Ok(v)
    ensures var x := Product(GetReg(c.regs, EAX, size).Number(), v);
            var m := Modulus(size);
            MulOp(c, p, size) ==
              Done(c.(regs := SetPair(c.regs, LowHalf(x, m), HighHalf(x, m), size),
                      flags := c.flags.(carry := HighHalf(x, m) > 0, overflow := HighHalf(x, m) > 0)))
  {
    hide GetArg, GetReg, SetPair, Factor, Modulus, LowHalf, HighHalf;
  }

  lemma ProductHalves(a: nat, b: nat, m: nat)
    requires m > 0 && a < m && b < m
    ensures var x := Product(a, b);
            LowHalf(x, m) == x % m && HighHalf(x, m) == x / m && (x >= m <==> HighHalf(x, m) > 0)
  {
    MulDiv.ProductFits(a, b, m);
    MulDiv.Halves(a * b, m);
    MulDiv.QuotientSign(a * b, m);
  }

  function Product(a: nat, b: nat): nat {
    a * b
  }

  /** mul: the pair becomes the product of accumulator and operand. */
  lemma Multiplies(c: Cpu, p: Slot, w: OpWidth, v: nat)
    requires Reads(c, p.args[0].location, w.Size(p.sizeOverride), v)
    ensures Multiplied(c, CpuOp(c, Mul(w), p), Product(GetReg(c.regs, EAX, w.Size(p.sizeOverride)).Number(), v),
                       w.Size(p.sizeOverride))
  {
    hide MulOp, Multiplied, Reads, Product, GetReg;
    MulMultiplies(c, p, w.Size(p.sizeOverride), v);
  }

  lemma FactorReads(c: Cpu, p: Slot, size: ValueSize, v: nat)
    requires IsWidth(size) && Reads(c, p.args[0].location, size, v)
    ensures v < Modulus(size) && v < 0x1_0000_0000 && MulDiv.Operand(c, p, size, v)
    ensures GetArg(c.regs, c.mem, p.args[0].location).Ok? && Factor(GetArg(c.regs, c.mem, p.args[0].location).value, size) == Ok(v)
  {
    hide GetArg;
  }

  /** Quotient and remainder are in the halves of the pair. */
  ghost predicate Divided(c: Cpu, r: CpuEffect<Cpu>, x: nat, v: nat, size: ValueSize)
    requires v > 0
  {
    && r.Done? && r.value == c.(regs := r.value.regs)
    && x / v < Modulus(size) && PairHolds(c.regs, r.value.regs, x / v, x % v, size)
  }

  /** div: it fails exactly when the quotient would not fit, which covers a divisor
      of 0, and otherwise divides the pair. */
  lemma Divides(c: Cpu, p: Slot, w: OpWidth, v: nat)
    requires Reads(c, p.args[0].location, w.Size(p.sizeOverride), v)
    ensures var r := CpuOp(c, Div(w), p);
            var size := w.Size(p.sizeOverride);
            var x := PairNumber(c.regs, size);
            if v <= HighPart(x, size) then r == Raised(c, DivideByZero) else v > 0 && Divided(c, r, x, v, size)
  {
    hide DivOp, Reads, PairNumber, Divided, HighPart;
    DivDivides(c, p, w.Size(p.sizeOverride), v);
  }

  /** What is above the lower half. */
  function HighPart(x: nat, size: ValueSize): nat {
    x / Modulus(size)
  }

  lemma DivDivides(c: Cpu, p: Slot, size: ValueSize, v: nat)
    requires IsWidth(size) && Reads(c, p.args[0].location, size, v)
    ensures var x := PairNumber(c.regs, size);
            if v <= HighPart(x, size) then DivOp(c, p, size) == Raised(c, DivideByZero)
            else v > 0 && Divided(c, DivOp(c, p, size), x, v, size)
  {
    var x := PairNumber(c.regs, size);
    FactorReads(c, p, size, v);
    PairIsPair(c.regs, size);
    var upper := HighPart(x, size);
    assert upper == Pair(c.regs, size) / Modulus(size);
    hide DivOp, GetArg, GetReg, SetPair, Modulus, PairHolds, Reads, PairNumber, Pair, MulDiv.Operand, HighPart;
    var q, r := MulDiv.DivIsExact(c, p, size, v, upper);
    if v > upper {
      Quotients(x, v, q, r);
      SetsPair(c.regs, q, r, size);
    }
  }

  lemma Quotients(x: nat, v: nat, q: nat, r: nat)
    requires v > 0 && r < v && x == q * v + r
    ensures x / v == q && x % v == r
  {
    Rotate.DivMod(q, r, v);
  }
}

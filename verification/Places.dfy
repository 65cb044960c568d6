// Where operands live: what is read from a place, what a store leaves there, and
// that it changes nothing else.

module Places {
  import opened Words
  import opened Errors
  import opened Structs
  import opened Memory
  import opened VMState
  import opened Arithmetic
  import Decoding
  import EffectiveAddress
  import opened Ops

  // ---------- values and bytes ----------

  predicate IsWidth(size: ValueSize) {
    size == SizeByte || size == SizeWord || size == SizeDword
  }

  predicate HasSize(v: SizedValue, size: ValueSize) {
    match size
    case SizeByte => v.Byte?
    case SizeWord => v.Word?
    case SizeDword => v.Dword?
    case _ => false
  }

  /** The number bytes stand for, lowest first. */
  function LittleEndian(b: seq<u8>): nat {
    if b == [] then 0 else b[0] + 0x100 * LittleEndian(b[1..])
  }

  lemma {:induction false} LittleEndianFits(b: seq<u8>)
    ensures |b| == 1 ==> LittleEndian(b) == b[0]
    ensures |b| == 2 ==> LittleEndian(b) == Le16(b)
    ensures |b| == 4 ==> LittleEndian(b) == Le32(b)
  {
    if |b| == 1 {
      assert LittleEndian(b[1..]) == 0;
    } else if |b| > 0 {
      LittleEndianFits(b[1..]);
      if |b| == 4 {
        LittleEndianFits(b[2..]);
        assert b[1..][1..] == b[2..] && b[2..][0] == b[2] && b[2..][1] == b[3];
      }
    }
  }

  /** The bytes of a place are in memory. */
  predicate Inside(m: Mem, a: u32, n: nat) {
    BlockOf(a) in m && Local(a) + n <= |m[BlockOf(a)]|
  }

  function BytesAt(m: Mem, a: u32, n: nat): seq<u8>
    requires Inside(m, a, n)
  {
    m[BlockOf(a)][Local(a)..Local(a) + n]
  }

  /** Memory is the same but for n bytes from `a` on. */
  ghost predicate OnlyBytesChanged(m: Mem, m': Mem, a: u32, n: nat) {
    && m'.Keys == m.Keys && (forall k :: k in m ==> |m'[k]| == |m[k]|)
    && (forall k, x :: k in m && 0 <= x < |m[k]| && !(k == BlockOf(a) && Local(a) <= x < Local(a) + n) ==> m'[k][x] == m[k][x])
  }

  lemma ReadsBytes(m: Mem, a: u32, n: u32)
    requires n > 0
    ensures Read(m, a, n).Ok? <==> Inside(m, a, n)
    ensures Inside(m, a, n) ==> Read(m, a, n) == Ok(BytesAt(m, a, n))
  {
    if Inside(m, a, n) {
      assert m[BlockOf(a)][Local(a)..][..n] == BytesAt(m, a, n);
    }
  }

  /** A load succeeds exactly when its bytes are there, and gives their number. */
  lemma LoadIsLittleEndian(m: Mem, a: u32, size: ValueSize)
    requires IsWidth(size)
    ensures var n := SizeInBytes(size);
            && (GetMem(m, a, size).Ok? <==> Inside(m, a, n))
            && (Inside(m, a, n) ==>
                  && HasSize(GetMem(m, a, size).value, size)
                  && GetMem(m, a, size).value.Number() == LittleEndian(BytesAt(m, a, n)))
  {
    hide Read, LittleEndian;
    var n := SizeInBytes(size);
    ReadsBytes(m, a, n);
    if Inside(m, a, n) {
      LittleEndianFits(BytesAt(m, a, n));
    }
  }

  lemma WritesBytes(m: Mem, a: u32, bytes: seq<u8>)
    requires 0 < |bytes| < 0x100
    ensures Write(m, a, bytes).Ok? <==> Inside(m, a, |bytes|)
    ensures Write(m, a, bytes).Ok? ==>
              var m' := Write(m, a, bytes).value;
              Inside(m', a, |bytes|) && BytesAt(m', a, |bytes|) == bytes && OnlyBytesChanged(m, m', a, |bytes|)
  {
  }

  /** A store succeeds exactly in writable memory that is there; it leaves the
      number behind and changes no other byte. */
  lemma StoreIsLittleEndian(m: Mem, a: u32, v: SizedValue, size: ValueSize)
    requires IsWidth(size) && HasSize(v, size)
    ensures var n := SizeInBytes(size);
            && (SetMem(m, a, v).Ok? <==> a >= WRITEABLE_MEMORY && Inside(m, a, n))
            && (SetMem(m, a, v).Ok? ==>
                  var m' := SetMem(m, a, v).value;
                  && Inside(m', a, n) && LittleEndian(BytesAt(m', a, n)) == v.Number()
                  && OnlyBytesChanged(m, m', a, n) && GetMem(m', a, size) == Ok(v))
  {
    hide Write, Read, LittleEndian, OnlyBytesChanged, Bytes16, Bytes32;
    var bytes := ValueBytes(v);
    WritesBytes(m, a, bytes);
    LittleEndianFits(bytes);
    if SetMem(m, a, v).Ok? {
      ReadsBytes(SetMem(m, a, v).value, a, |bytes|);
    }
  }

  // ---------- registers ----------

  /** Byte k of a register. */
  function RegByte(regs: Regs, r: u3, k: nat): u8
    requires k < 4
  {
    if k == 0 then regs[r] % 0x100
    else if k == 1 then regs[r] / 0x100 % 0x100
    else if k == 2 then regs[r] / 0x1_0000 % 0x100
    else regs[r] / 0x100_0000
  }

  /** Register number r names, in this width, byte k of register q: the byte
      registers 4 to 7 are the second bytes of the first four. */
  predicate Names(r: u3, size: ValueSize, q: u3, k: nat) {
    match size
    case SizeByte => if r < 4 then q == r && k == 0 else q == r - 4 && k == 1
    case SizeWord => q == r && k < 2
    case _ => q == r
  }

  ghost predicate OnlyRegisterChanged(regs: Regs, regs': Regs, r: u3, size: ValueSize) {
    forall q: u3, k: nat :: k < 4 && !Names(r, size, q, k) ==> RegByte(regs', q, k) == RegByte(regs, q, k)
  }

  lemma SetByte(x: u32, b: u8)
    ensures var y := x - x % 0x100 + b; y < 0x1_0000_0000 && y % 0x100 == b && y / 0x100 == x / 0x100
  {
  }

  lemma SetHighByte(x: u32, b: u8)
    ensures var y := x - x / 0x100 % 0x100 * 0x100 + b * 0x100;
            0 <= y < 0x1_0000_0000 && y / 0x100 % 0x100 == b && y % 0x100 == x % 0x100 && y / 0x1_0000 == x / 0x1_0000
  {
    var low: int, middle: int, high: int := x % 0x100, x / 0x100 % 0x100, x / 0x1_0000;
    HighParts(x);
    assert x == (high * 0x100 + middle) * 0x100 + low;
    var y := x - middle * 0x100 + b * 0x100;
    assert y == (high * 0x100 + b) * 0x100 + low;
    assert y / 0x100 == high * 0x100 + b && y % 0x100 == low;
    assert y / 0x1_0000 == y / 0x100 / 0x100;
  }

  lemma SetWord(x: u32, w: u16)
    ensures var y := x - x % 0x1_0000 + w; y < 0x1_0000_0000 && y % 0x1_0000 == w && y / 0x1_0000 == x / 0x1_0000
  {
  }

  lemma HighParts(x: u32)
    ensures x / 0x100 / 0x100 == x / 0x1_0000 && x / 0x1_0000 / 0x100 == x / 0x100_0000
  {
  }

  /** A register read back gives what was written, and no other byte of any
      register changes. */
  lemma RegisterReadsBack(regs: Regs, r: u3, v: SizedValue, size: ValueSize)
    requires IsWidth(size) && HasSize(v, size)
    ensures GetReg(SetReg(regs, r, v), r, size) == v
    ensures OnlyRegisterChanged(regs, SetReg(regs, r, v), r, size)
  {
    var q: u3 := if size == SizeByte && r >= 4 then r - 4 else r;
    var x, y := regs[q], SetReg(regs, r, v)[q];
    HighParts(x);
    HighParts(y);
    if size == SizeByte {
      SetByte(x, v.b);
      SetHighByte(x, v.b);
    } else if size == SizeWord {
      SetWord(x, v.w);
    }
  }

  /** What a register reads as, by its bytes. */
  lemma RegisterNumber(regs: Regs, r: u3, size: ValueSize)
    requires IsWidth(size)
    ensures HasSize(GetReg(regs, r, size), size)
    ensures size == SizeByte ==>
              GetReg(regs, r, size).Number() == if r < 4 then RegByte(regs, r, 0) else RegByte(regs, r - 4, 1)
    ensures size == SizeWord ==> GetReg(regs, r, size).Number() == RegByte(regs, r, 0) + 0x100 * RegByte(regs, r, 1)
    ensures size == SizeDword ==>
              GetReg(regs, r, size).Number() == RegByte(regs, r, 0) as int + 0x100 * RegByte(regs, r, 1) as int
                + 0x1_0000 * RegByte(regs, r, 2) as int + 0x100_0000 * RegByte(regs, r, 3) as int
  {
    if size != SizeByte { ByByte(regs[r]); }
  }

  // ---------- operands ----------

  /** The width of an operand. */
  function WidthOf(loc: ArgLocation): ValueSize {
    match loc
    case NoArg => SizeNone
    case Immediate(_) => SizeNone
    case Address(_, size) => size
    case RegisterValue(_, size) => size
    case RegisterAddress(_, size) => size
    case ModRMAddress(_, _, size) => size
    case SIBAddress(_, _, _, _, size) => size
  }

  /** An operand of this width in a register or in memory. */
  predicate IsPlace(regs: Regs, loc: ArgLocation, size: ValueSize) {
    IsWidth(size) && WidthOf(loc) == size && (loc.RegisterValue? || GetArgLea(regs, loc).Ok?)
  }

  /** The operand reads as this number, in this width. */
  predicate Reads(c: Cpu, loc: ArgLocation, size: ValueSize, n: nat) {
    var v := GetArg(c.regs, c.mem, loc);
    v.Ok? && HasSize(v.value, size) && v.value.Number() == n
  }

  /** Nothing but the operand has changed, and perhaps the flags. */
  ghost predicate OnlyPlaceChanged(c: Cpu, t: Cpu, loc: ArgLocation) {
    && t.eip == c.eip && t.host == c.host
    && if loc.RegisterValue? then t.mem == c.mem && OnlyRegisterChanged(c.regs, t.regs, loc.r, loc.size)
       else if GetArgLea(c.regs, loc).Ok? then
         t.regs == c.regs && OnlyBytesChanged(c.mem, t.mem, GetArgLea(c.regs, loc).value, SizeInBytes(WidthOf(loc)))
       else t.mem == c.mem && t.regs == c.regs
  }

  /** The operand can be stored to. */
  predicate CanStore(c: Cpu, loc: ArgLocation, size: ValueSize)
    requires IsPlace(c.regs, loc, size)
  {
    loc.RegisterValue?
    || (var a := GetArgLea(c.regs, loc).value; a >= WRITEABLE_MEMORY && Inside(c.mem, a, SizeInBytes(size)))
  }

  /** An operand in memory reads what is at its address. */
  lemma ReadsItsAddress(c: Cpu, loc: ArgLocation, a: u32)
    requires GetArgLea(c.regs, loc) == Ok(a) && IsWidth(WidthOf(loc))
    ensures var n := SizeInBytes(WidthOf(loc));
            && (GetArg(c.regs, c.mem, loc).Ok? <==> Inside(c.mem, a, n))
            && (Inside(c.mem, a, n) ==> Reads(c, loc, WidthOf(loc), LittleEndian(BytesAt(c.mem, a, n))))
  {
    hide GetMem, Inside, LittleEndian, ModRMEffectiveAddress;
    LoadIsLittleEndian(c.mem, a, WidthOf(loc));
  }

  lemma SameSizeConverts(v: SizedValue, size: ValueSize)
    requires IsWidth(size) && HasSize(v, size)
    ensures v.ConvertSizeZx(size) == Ok(v) && v.ConvertSizeTrunc(size) == v && v.Number() < Modulus(size)
  {
  }

  lemma Converts(v: SizedValue, size: ValueSize)
    requires IsWidth(size)
    ensures HasSize(v.ConvertSizeTrunc(size), size) && v.ConvertSizeTrunc(size).Number() == v.Number() % Modulus(size)
    ensures v.ConvertSizeZx(size).Ok? ==>
              HasSize(v.ConvertSizeZx(size).value, size) && v.ConvertSizeZx(size).value.Number() == v.Number() % Modulus(size)
  {
  }

  /** The value a store to an operand leaves there: the registers convert with
      zero extension, and so do the two plain forms of address; the others truncate. */
  function Stored(v: SizedValue, loc: ArgLocation): Result<SizedValue> {
    if loc.ModRMAddress? || loc.SIBAddress? then Ok(v.ConvertSizeTrunc(WidthOf(loc))) else v.ConvertSizeZx(WidthOf(loc))
  }

  lemma StoredNumber(v: SizedValue, loc: ArgLocation)
    requires IsWidth(WidthOf(loc)) && Stored(v, loc).Ok?
    ensures HasSize(Stored(v, loc).value, WidthOf(loc)) && Stored(v, loc).value.Number() == v.Number() % Modulus(WidthOf(loc))
    ensures HasSize(v, WidthOf(loc)) ==> Stored(v, loc).value == v
  {
    Converts(v, WidthOf(loc));
    if HasSize(v, WidthOf(loc)) { SameSizeConverts(v, WidthOf(loc)); }
  }

  /** A store to an operand in memory goes to its address, and nowhere else. */
  lemma StoresAtItsAddress(c: Cpu, loc: ArgLocation, a: u32, v: SizedValue)
    requires GetArgLea(c.regs, loc) == Ok(a) && IsWidth(WidthOf(loc))
    ensures var n := SizeInBytes(WidthOf(loc));
            var r := SetArg(c, loc, v);
            && (r.Done? <==> Stored(v, loc).Ok? && a >= WRITEABLE_MEMORY && Inside(c.mem, a, n))
            && (r.Done? ==>
                  && r.value == c.(mem := r.value.mem) && OnlyBytesChanged(c.mem, r.value.mem, a, n)
                  && Inside(r.value.mem, a, n)
                  && LittleEndian(BytesAt(r.value.mem, a, n)) == v.Number() % Modulus(WidthOf(loc)))
  {
    hide SetMem, Inside, LittleEndian, ModRMEffectiveAddress, OnlyBytesChanged, Modulus;
    var z := Stored(v, loc);
    if z.Ok? {
      StoredNumber(v, loc);
      StoreIsLittleEndian(c.mem, a, z.value, WidthOf(loc));
    }
  }

  /** A value of the operand's width is stored as it is. */
  lemma StoresSameSize(c: Cpu, loc: ArgLocation, a: u32, v: SizedValue, size: ValueSize)
    requires GetArgLea(c.regs, loc) == Ok(a) && IsWidth(size) && WidthOf(loc) == size && HasSize(v, size)
    ensures var n := SizeInBytes(size);
            var r := SetArg(c, loc, v);
            && (r.Done? <==> a >= WRITEABLE_MEMORY && Inside(c.mem, a, n))
            && (r.Done? ==>
                  && r.value == c.(mem := r.value.mem) && OnlyBytesChanged(c.mem, r.value.mem, a, n)
                  && Inside(r.value.mem, a, n) && LittleEndian(BytesAt(r.value.mem, a, n)) == v.Number()
                  && Reads(r.value, loc, size, v.Number()))
  {
    hide SetArg, GetArg, GetArgLea, OnlyBytesChanged, Inside, LittleEndian, Modulus, BytesAt;
    SameSizeConverts(v, size);
    SmallMod(v.Number(), Modulus(size));
    StoresAtItsAddress(c, loc, a, v);
    if SetArg(c, loc, v).Done? { ReadsItsAddress(SetArg(c, loc, v).value, loc, a); }
  }

  /** A store to a register names its bytes, and no others. */
  lemma StoresInRegister(c: Cpu, loc: ArgLocation, v: SizedValue)
    requires loc.RegisterValue? && IsWidth(loc.size)
    ensures var r := SetArg(c, loc, v);
            && (r.Done? <==> v.ConvertSizeZx(loc.size).Ok?)
            && (r.Done? ==>
                  && r.value == c.(regs := r.value.regs) && OnlyRegisterChanged(c.regs, r.value.regs, loc.r, loc.size)
                  && GetReg(r.value.regs, loc.r, loc.size).Number() == v.Number() % Modulus(loc.size))
  {
    hide OnlyRegisterChanged, GetReg, VMState.SetReg;
    var z := v.ConvertSizeZx(loc.size);
    if z.Ok? {
      Converts(v, loc.size);
      RegisterReadsBack(c.regs, loc.r, z.value, loc.size);
    }
  }

  /** A store to an operand: when it succeeds, the operand then reads as the
      number stored, in its width, and nothing else has changed; a value of that
      width is refused only where the operand cannot be stored to. */
  lemma StoreThenRead(c: Cpu, loc: ArgLocation, v: SizedValue, size: ValueSize)
    requires IsPlace(c.regs, loc, size)
    ensures var r := SetArg(c, loc, v);
            && (r.Done? ==>
                  && Reads(r.value, loc, size, v.Number() % Modulus(size))
                  && OnlyPlaceChanged(c, r.value, loc) && r.value.flags == c.flags)
            && (HasSize(v, size) ==> (r.Done? <==> CanStore(c, loc, size)))
  {
    hide GetArg, SetArg, Modulus, GetReg, GetArgLea, OnlyRegisterChanged, OnlyBytesChanged, Inside, LittleEndian;
    var r := SetArg(c, loc, v);
    if HasSize(v, size) { SameSizeConverts(v, size); }
    if loc.RegisterValue? {
      StoresInRegister(c, loc, v);
      if r.Done? {
        assert GetArg(r.value.regs, r.value.mem, loc) == Ok(GetReg(r.value.regs, loc.r, loc.size)) by { ReadsRegister(r.value, loc); }
        RegisterNumber(r.value.regs, loc.r, size);
      }
    } else {
      var a := GetArgLea(c.regs, loc).value;
      StoresAtItsAddress(c, loc, a, v);
      if r.Done? { ReadsItsAddress(r.value, loc, a); }
    }
  }

  lemma ReadsRegister(c: Cpu, loc: ArgLocation)
    requires loc.RegisterValue?
    ensures GetArg(c.regs, c.mem, loc) == Ok(GetReg(c.regs, loc.r, loc.size))
  {
  }

  // ---------- putting a number back ----------

  lemma {:induction false} SameNumberSameBytes(v: seq<u8>, w: seq<u8>)
    requires |v| == |w| && LittleEndian(v) == LittleEndian(w)
    ensures v == w
    decreases |v|
  {
    if v != [] {
      assert LittleEndian(v) % 0x100 == v[0] && LittleEndian(w) % 0x100 == w[0];
      SameNumberSameBytes(v[1..], w[1..]);
      assert v == [v[0]] + v[1..] && w == [w[0]] + w[1..];
    }
  }

  lemma SameBytesSameMemory(m: Mem, m': Mem, a: u32, n: nat)
    requires OnlyBytesChanged(m, m', a, n) && Inside(m, a, n) && Inside(m', a, n) && BytesAt(m, a, n) == BytesAt(m', a, n)
    ensures m == m'
  {
    var b := BlockOf(a);
    forall x | 0 <= x < |m[b]| ensures m'[b][x] == m[b][x] {
      if Local(a) <= x < Local(a) + n {
        assert m[b][x] == BytesAt(m, a, n)[x - Local(a)] && m'[b][x] == BytesAt(m', a, n)[x - Local(a)];
      }
    }
    assert forall k :: k in m ==> m'[k] == m[k];
  }

  lemma RegisterOfBytes(x: u32, y: u32)
    requires x % 0x100 == y % 0x100 && x / 0x100 % 0x100 == y / 0x100 % 0x100
    requires x / 0x1_0000 % 0x100 == y / 0x1_0000 % 0x100 && x / 0x100_0000 == y / 0x100_0000
    ensures x == y
  {
    ByByte(x);
    ByByte(y);
  }

  /** A word from its bytes. */
  lemma ByByte(x: u32)
    ensures x % 0x1_0000 == x % 0x100 + 0x100 * (x / 0x100 % 0x100)
    ensures x / 0x1_0000 == x / 0x1_0000 % 0x100 + 0x100 * (x / 0x100_0000)
    ensures x == x % 0x1_0000 + 0x1_0000 * (x / 0x1_0000)
  {
    var a: int := x / 0x100;
    var b: int := a / 0x100;
    var d: int := b / 0x100;
    assert x == x % 0x100 + 0x100 * a && a == a % 0x100 + 0x100 * b && b == b % 0x100 + 0x100 * d;
    HighParts(x);
  }

  lemma SameBytesSameRegisters(regs: Regs, regs': Regs)
    requires forall q: u3, k: nat :: k < 4 ==> RegByte(regs', q, k) == RegByte(regs, q, k)
    ensures regs == regs'
  {
    forall q: u3 ensures regs[q] == regs'[q] {
      assert RegByte(regs', q, 0) == RegByte(regs, q, 0) && RegByte(regs', q, 1) == RegByte(regs, q, 1);
      assert RegByte(regs', q, 2) == RegByte(regs, q, 2) && RegByte(regs', q, 3) == RegByte(regs, q, 3);
      RegisterOfBytes(regs[q], regs'[q]);
    }
    assert forall i :: 0 <= i < 8 ==> regs[i] == regs'[i];
  }

  lemma NamedBytesSame(regs: Regs, regs': Regs, r: u3, size: ValueSize, q: u3, k: nat)
    requires IsWidth(size) && k < 4 && Names(r, size, q, k)
    requires GetReg(regs, r, size).Number() == GetReg(regs', r, size).Number()
    ensures RegByte(regs', q, k) == RegByte(regs, q, k)
  {
    var x, y := regs[q], regs'[q];
    if size == SizeWord {
      WordBytes(x);
      WordBytes(y);
    }
  }

  lemma WordBytes(x: u32)
    ensures x % 0x1_0000 % 0x100 == x % 0x100 && x % 0x1_0000 / 0x100 == x / 0x100 % 0x100
  {
    ByByte(x);
    var low: int, high: int := x % 0x100, x / 0x100 % 0x100;
    assert x % 0x1_0000 == low + 0x100 * high;
  }

  /** When the operand reads as before and nothing else has changed, nothing has. */
  lemma NothingChanged(c: Cpu, t: Cpu, loc: ArgLocation, size: ValueSize, n: nat)
    requires IsPlace(c.regs, loc, size) && OnlyPlaceChanged(c, t, loc) && Reads(c, loc, size, n) && Reads(t, loc, size, n)
    ensures t == c.(flags := t.flags)
  {
    hide RegByte, Names, GetReg, GetMem, LittleEndian, ModRMEffectiveAddress;
    if loc.RegisterValue? {
      forall q: u3, k: nat | k < 4 ensures RegByte(t.regs, q, k) == RegByte(c.regs, q, k) {
        if Names(loc.r, size, q, k) { NamedBytesSame(c.regs, t.regs, loc.r, size, q, k); }
      }
      SameBytesSameRegisters(c.regs, t.regs);
    } else {
      var a := GetArgLea(c.regs, loc).value;
      ReadsItsAddress(c, loc, a);
      ReadsItsAddress(t, loc, a);
      SameNumberSameBytes(BytesAt(c.mem, a, SizeInBytes(size)), BytesAt(t.mem, a, SizeInBytes(size)));
      SameBytesSameMemory(c.mem, t.mem, a, SizeInBytes(size));
    }
  }

  lemma OnlyPlaceTwice(c: Cpu, t: Cpu, u: Cpu, loc: ArgLocation)
    requires OnlyPlaceChanged(c, t, loc) && OnlyPlaceChanged(t, u, loc)
    ensures OnlyPlaceChanged(c, u, loc)
  {
    hide RegByte, Names;
  }

  // ---------- encoded operands ----------

  /** A store to an operand that was encoded in the instruction puts the number
      at base + index * scale + displacement, and nowhere else; a load finds it there. */
  lemma EncodedOperandStored(c: Cpu, opcode: u8, reg: u3, m: EffectiveAddress.MemoryOperand, rest: seq<u8>, size: ValueSize,
                             v: SizedValue)
    requires m.Encodable() && |EffectiveAddress.Encode(reg, m)| + |rest| >= 4 && IsWidth(size) && HasSize(v, size)
    ensures var bytes := [opcode] + EffectiveAddress.Encode(reg, m) + rest;
            && Decoding.FromBytes(bytes).Ok?
            && var loc := EffectiveAddress.Located(Decoding.FromBytes(bytes).value, size).location;
               var a, n := EffectiveAddress.AddressOf(c.regs, m), SizeInBytes(size);
               var r := SetArg(c, loc, v);
               && (r.Done? <==> a >= WRITEABLE_MEMORY && Inside(c.mem, a, n))
               && (r.Done? ==>
                     && Inside(r.value.mem, a, n) && LittleEndian(BytesAt(r.value.mem, a, n)) == v.Number()
                     && r.value == c.(mem := r.value.mem) && OnlyBytesChanged(c.mem, r.value.mem, a, n)
                     && Reads(r.value, loc, size, v.Number()))
  {
    hide Decoding.FromBytes, EffectiveAddress.Encode, EffectiveAddress.AddressOf, SetArg, GetArg, GetArgLea, OnlyBytesChanged,
         Inside, LittleEndian, Reads, BytesAt, HasSize, IsWidth;
    EffectiveAddress.EncodedAddress(opcode, reg, m, rest, size, c.regs);
    EffectiveAddress.DecodeEncode(opcode, reg, m, rest, size);
    var p := Decoding.FromBytes([opcode] + EffectiveAddress.Encode(reg, m) + rest).value;
    OperandHasWidth(p, m, size);
    StoresSameSize(c, EffectiveAddress.Located(p, size).location, EffectiveAddress.AddressOf(c.regs, m), v, size);
  }

  lemma OperandHasWidth(p: Decoding.ParsedModRM, m: EffectiveAddress.MemoryOperand, size: ValueSize)
    requires EffectiveAddress.OperandAt(EffectiveAddress.Located(p, size).location) == Some(m)
    ensures WidthOf(EffectiveAddress.Located(p, size).location) == size
  {
  }
}

// Multiplication and division through the register pair.

module MulDiv {
  import opened Words
  import opened Errors
  import opened Structs
  import opened VMState
  import Fetch
  import opened Arithmetic
  import opened Ops
  import opened Rotate

  predicate WordSized(size: ValueSize) {
    size in {SizeByte, SizeWord, SizeDword}
  }

  lemma ByteHalves(x: u32, low: u8, high: u8)
    ensures var first := x - x % 0x100 + low;
            var second := first - first / 0x100 % 0x100 * 0x100 + high * 0x100;
            second % 0x1_0000 == high * 0x100 + low && second % 0x100 == low
  {
    var h, m: u8 := x / 0x1_0000, x / 0x100 % 0x100;
    assert x == h * 0x1_0000 + m * 0x100 + x % 0x100;
    var first := x - x % 0x100 + low;
    assert first == h * 0x1_0000 + m * 0x100 + low;
    assert first / 0x100 == h * 0x100 + m;
    assert first / 0x100 % 0x100 == m;
    assert first - m * 0x100 + high * 0x100 == h * 0x1_0000 + high * 0x100 + low;
  }

  lemma PairOfBytes(r: Regs, low: u8, high: u8)
    ensures Pair(SetPair(r, low, high, SizeByte), SizeByte) == high * 0x100 + low
    ensures GetReg(SetPair(r, low, high, SizeByte), EAX, SizeByte) == Byte(low)
  {
    ByteHalves(r[EAX], low, high);
  }

  lemma PairOfWords(r: Regs, low: u16, high: u16)
    ensures Pair(SetPair(r, low, high, SizeWord), SizeWord) == high * 0x1_0000 + low
    ensures GetReg(SetPair(r, low, high, SizeWord), EAX, SizeWord) == Word(low)
  {
    var first := SetReg(r, EAX, Word(low));
    assert first[EAX] % 0x1_0000 == low;
    assert SetPair(r, low, high, SizeWord) == SetReg(first, EDX, Word(high));
  }

  /** The pair holds what is written to its halves. */
  lemma PairOfHalves(r: Regs, low: nat, high: nat, size: ValueSize)
    requires WordSized(size) && low < Modulus(size) && high < Modulus(size)
    ensures Pair(SetPair(r, low, high, size), size) == high * Modulus(size) + low
    ensures GetReg(SetPair(r, low, high, size), EAX, size) == Sized(low, size)
  {
    if size == SizeByte {
      hide Pair, SetPair, GetReg;
      PairOfBytes(r, low, high);
    } else if size == SizeWord {
      hide Pair, SetPair, GetReg;
      PairOfWords(r, low, high);
    }
  }

  lemma AtLeast(x: nat, a: nat, b: nat)
    requires a > 0
    ensures x / a >= b <==> x >= a * b
  {
    var q, r := x / a, x % a;
    assert x == a * q + r;
    if q >= b {
      assert a * q >= a * b;
    } else {
      assert a * (q + 1) <= a * b;
      assert a * (q + 1) == a * q + a;
    }
  }

  lemma Halves(x: nat, m: nat)
    requires m > 0 && x < m * m
    ensures x / m < m && x / m * m + x % m == x && x / m % m == x / m
  {
    AtLeast(x, m, m);
  }

  lemma ProductFits(a: nat, b: nat, m: nat)
    requires a < m && b < m
    ensures a * b < m * m
  {
    assert a * b <= a * m;
    assert a * m < m * m;
  }

  /** The operand of mul or div as a number. */
  predicate Operand(c: Cpu, p: Fetch.Slot, size: ValueSize, v: u32) {
    var a := Arg(c, p, 0);
    a.Done? && Factor(a.value, size) == Ok(v) && v < Modulus(size)
  }

  /** The accumulator: AL, AX or EAX. */
  function Accumulator(c: Cpu, size: ValueSize): nat {
    GetReg(c.regs, EAX, size).Number()
  }

  lemma AccumulatorFits(c: Cpu, size: ValueSize)
    requires WordSized(size)
    ensures Accumulator(c, size) < Modulus(size)
  {
  }

  /** mul leaves the exact product in the register pair; carry and overflow tell
      whether it needs the upper half. */
  lemma MulIsExact(c: Cpu, p: Fetch.Slot, size: ValueSize, v: u32)
    requires WordSized(size) && Operand(c, p, size, v)
    ensures var product: nat := Accumulator(c, size) * v;
            var e := MulOp(c, p, size);
            && e.Done? && Pair(e.value.regs, size) == product
            && e.value == c.(regs := e.value.regs, flags := c.flags.(carry := product >= Modulus(size),
                                                                     overflow := product >= Modulus(size)))
            && GetReg(e.value.regs, EAX, size) == Sized(product % Modulus(size), size)
  {
    hide SetPair, GetReg, Pair, GetArg;
    var a, m := Accumulator(c, size), Modulus(size);
    AccumulatorFits(c, size);
    ProductFits(a, v, m);
    Halves(a * v, m);
    PairOfHalves(c.regs, a * v % m, a * v / m, size);
    assert a * v >= m <==> a * v / m > 0 by { QuotientSign(a * v, m); }
  }

  lemma QuotientSign(x: nat, m: nat)
    requires m > 0
    ensures x >= m <==> x / m > 0
  {
    assert x == x / m * m + x % m;
    if x / m > 0 {
      assert x / m * m >= m;
    }
  }

  /** div fails exactly when the divisor is at most the upper half of the pair,
      and otherwise leaves quotient and remainder in the two halves. */
  lemma DivIsExact(c: Cpu, p: Fetch.Slot, size: ValueSize, v: u32, upper: nat) returns (q: nat, r: nat)
    requires WordSized(size) && Operand(c, p, size, v) && upper == Pair(c.regs, size) / Modulus(size)
    ensures v <= upper ==> DivOp(c, p, size) == Raised(c, DivideByZero)
    ensures v > upper ==> q < Modulus(size) && r < v && q * v + r == Pair(c.regs, size)
    ensures v > upper ==> DivOp(c, p, size) == Done(c.(regs := SetPair(c.regs, q, r, size)))
  {
    hide SetPair, GetReg, Pair, GetArg;
    q, r := 0, 0;
    if v > 0 {
      q, r := Quotient(Pair(c.regs, size), v, Modulus(size));
    }
  }

  lemma Quotient(x: nat, v: nat, m: nat) returns (q: nat, r: nat)
    requires 0 < v < m
    ensures x / v == q && x % v == r && x % v % m == r && r < v && q * v + r == x
    ensures q >= m <==> x / m >= v
  {
    QuotientFits(x, v, m);
    q, r := x / v, x % v;
  }

  lemma QuotientFits(x: nat, v: nat, m: nat)
    requires 0 < v < m
    ensures x / v >= m <==> x / m >= v
    ensures x % v % m == x % v
  {
    AtLeast(x, v, m);
    AtLeast(x, m, v);
    assert v * m == m * v;
    SmallMod(x % v, m);
  }

  /** div after mul by the same operand gives the accumulator back, with nothing left over. */
  lemma DivUndoesMul(c: Cpu, p: Fetch.Slot, size: ValueSize, v: u32)
    requires WordSized(size) && v > 0 && Operand(c, p, size, v)
    requires MulOp(c, p, size).Done? && Operand(MulOp(c, p, size).value, p, size, v)
    ensures var t := MulOp(c, p, size).value;
            DivOp(t, p, size) == Done(t.(regs := SetPair(t.regs, Accumulator(c, size), 0, size)))
  {
    hide MulOp, DivOp, Operand, Pair, SetPair, GetReg;
    MulIsExact(c, p, size, v);
    var t, a, m := MulOp(c, p, size).value, Accumulator(c, size), Modulus(size);
    AccumulatorFits(c, size);
    assert v < m by { OperandFits(c, p, size, v); }
    Smaller(a, m, v);
    AtLeast(a * v, m, v);
    var q, r := DivIsExact(t, p, size, v, a * v / m);
    SameQuotient(q, r, a, v);
  }

  lemma OperandFits(c: Cpu, p: Fetch.Slot, size: ValueSize, v: u32)
    requires Operand(c, p, size, v)
    ensures v < Modulus(size)
  {
  }

  lemma Smaller(a: nat, m: nat, v: nat)
    requires a < m && v > 0
    ensures a * v < m * v
  {
  }

  lemma SameQuotient(q: nat, r: nat, a: nat, v: nat)
    requires r < v && q * v + r == a * v
    ensures q == a && r == 0
  {
    DivMod(q, r, v);
    DivMod(a, 0, v);
  }
}

// Rotates through carry as rotations of a ring of operand bits and CF.

module Rotate {
  import Words
  import Structs
  import opened BitManip
  import FlagBits
  import opened Arithmetic

  /** One step to the left in a ring of n + 1 bits. */
  function RingLeft(ring: nat, n: nat): nat {
    var top := ring / Pow2(n);
    2 * (ring % Pow2(n)) + top
  }

  function RingLeftBy(ring: nat, n: nat, c: nat): nat {
    if c == 0 then ring else RingLeft(RingLeftBy(ring, n, c - 1), n)
  }

  /** The ring of rcl and rcr: CF below the operand, so that a step to the left
      moves the top bit of the operand into CF and CF into the bottom bit. */
  function Ring(v: nat, f: FlagBits.Flags): nat {
    2 * v + CarryBit(f)
  }

  // ---------- arithmetic of shifts ----------

  lemma {:induction false} Pow2Adds(a: nat, b: nat)
    ensures Pow2(a + b) == Pow2(a) * Pow2(b)
  {
    if a > 0 {
      Pow2Adds(a - 1, b);
      assert Pow2(a + b) == 2 * (Pow2(a - 1) * Pow2(b));
    }
  }

  lemma DivMod(q: int, r: nat, d: nat)
    requires r < d
    ensures (q * d + r) / d == q && (q * d + r) % d == r
  {
    var x := q * d + r;
    assert x == (x / d) * d + x % d;
    var e := x / d - q;
    assert e * d == r - x % d;
  }

  /** Or of numbers whose bits do not overlap is their sum. */
  lemma {:induction false} OrOfDisjoint(a: nat, b: nat, k: nat)
    requires b < Pow2(k)
    ensures Or(a * Pow2(k), b) == a * Pow2(k) + b
    decreases k
  {
    if k == 0 {
      OrZero(a);
    } else {
      var half := a * Pow2(k - 1);
      assert a * Pow2(k) == 2 * half;
      OrOfDisjoint(a, b / 2, k - 1);
      OrUnfold(2 * half, b);
    }
  }

  lemma OrUnfold(a: nat, b: nat)
    ensures Or(a, b) == 2 * Or(a / 2, b / 2) + if a % 2 == 1 || b % 2 == 1 then 1 else 0
  {
    if a == 0 && b == 0 {
      assert Or(0, 0) == 0;
    }
  }

  lemma {:induction false} OrZero(a: nat)
    ensures Or(a, 0) == a
  {
    if a > 0 { OrZero(a / 2); }
  }

  lemma {:induction false} OrCommutes(a: nat, b: nat)
    ensures Or(a, b) == Or(b, a)
    decreases a, b
  {
    if a != 0 || b != 0 {
      OrCommutes(a / 2, b / 2);
    }
  }

  lemma {:induction false} BitIsQuotient(x: nat, i: nat)
    ensures GetBit(x, i) <==> x / Pow2(i) % 2 == 1
    decreases i
  {
    if i > 0 {
      BitIsQuotient(x / 2, i - 1);
      DivDiv(x, Pow2(i - 1));
    }
  }

  lemma DivDiv(x: nat, d: nat)
    requires d >= 1
    ensures x / 2 / d == x / (2 * d)
  {
    var q, r := x / 2 / d, x / 2 % d;
    assert x / 2 == q * d + r;
    assert x == q * (2 * d) + (2 * r + x % 2);
    DivMod(q, 2 * r + x % 2, 2 * d);
  }

  lemma Distribute(a: int, b: int, c: int)
    ensures (a + b) * c == a * c + b * c
  {
  }

  lemma Reassociate(a: int, b: int, c: int)
    ensures a * b * c == a * (b * c)
  {
  }

  /** Splitting the bottom bit off the high part. */
  lemma SplitHigh(h: nat, top: nat, lo: nat, p: nat)
    ensures (2 * h + top) * p + lo == h * (2 * p) + (top * p + lo)
  {
    Distribute(2 * h, top, p);
    Reassociate(h, 2, p);
  }

  lemma MoveTop(h: nat, top: nat, lo: nat, p: nat, q: nat)
    ensures (top * p + lo) * q + h == top * (p * q) + (lo * q + h)
  {
    Distribute(top * p, lo, q);
    Reassociate(top, p, q);
  }

  lemma LowPartFits(h: nat, lo: nat, p: nat, q: nat)
    requires lo < p && h < q
    ensures lo * q + h < p * q
  {
    Distribute(lo, 1, q);
    var more := p - (lo + 1);
    Distribute(lo + 1, more, q);
    assert more * q >= 0;
  }

  lemma SplitRing(hi: nat, lo: nat, n: nat, c: nat)
    requires 1 <= c <= n + 1 && hi < Pow2(c) && lo < Pow2(n + 1 - c)
    ensures hi / 2 < Pow2(c - 1) && hi % 2 * Pow2(n + 1 - c) + lo < Pow2(n + 2 - c)
    ensures hi * Pow2(n + 1 - c) + lo == hi / 2 * Pow2(n + 2 - c) + (hi % 2 * Pow2(n + 1 - c) + lo)
  {
    assert Pow2(n + 2 - c) == 2 * Pow2(n + 1 - c) && Pow2(c) == 2 * Pow2(c - 1);
    hide Pow2;
    SplitHigh(hi / 2, hi % 2, lo, Pow2(n + 1 - c));
    LowPartFits(lo, hi % 2, 2, Pow2(n + 1 - c));
  }

  /** Turning a ring of hi and lo parts by the length of hi swaps the parts. */
  lemma {:induction false} RingTurn(hi: nat, lo: nat, n: nat, c: nat)
    requires c <= n + 1 && hi < Pow2(c) && lo < Pow2(n + 1 - c)
    ensures RingLeftBy(hi * Pow2(n + 1 - c) + lo, n, c) == lo * Pow2(c) + hi
    decreases c
  {
    if c > 0 {
      // The last step moves one bit: split the bit off hi first.
      hide Pow2, RingLeft;
      SplitRing(hi, lo, n, c);
      RingTurn(hi / 2, hi % 2 * Pow2(n + 1 - c) + lo, n, c - 1);
      LastStep(hi / 2, hi % 2, lo, n, Pow2(n + 1 - c), Pow2(c - 1), c);
    }
  }

  lemma TopMoves(h: nat, top: nat, lo: nat, p: nat, q: nat, m: nat)
    requires h < q && lo < p && m == p * q
    ensures m > 0
    ensures var x := (top * p + lo) * q + h; x / m == top && x % m == lo * q + h
    ensures 2 * (lo * q + h) + top == lo * (2 * q) + (2 * h + top)
  {
    MoveTop(h, top, lo, p, q);
    LowPartFits(h, lo, p, q);
    DivMod(top, lo * q + h, m);
    Reassociate(lo, 2, q);
  }

  lemma LastStep(h: nat, top: nat, lo: nat, n: nat, p: nat, q: nat, c: nat)
    requires 1 <= c <= n + 1 && p == Pow2(n + 1 - c) && q == Pow2(c - 1)
    requires h < q && top < 2 && lo < p
    ensures RingLeft((top * p + lo) * q + h, n) == lo * Pow2(c) + (2 * h + top)
  {
    assert Pow2(c) == 2 * q;
    assert Pow2(n) == p * q by { Pow2Adds(n + 1 - c, c - 1); }
    hide Pow2;
    TopMoves(h, top, lo, p, q, Pow2(n));
  }

  // ---------- the ring ----------

  lemma SizesArePowers(size: Structs.ValueSize)
    ensures Modulus(size) == Pow2(Bits(size)) && Bits(size) in {8, 16, 32}
  {
    assert Pow2(8) == 0x100;
    Pow2Adds(8, 8);
    Pow2Adds(16, 16);
  }

  lemma {:induction false} Pow2Grows(a: nat, b: nat)
    requires a <= b
    ensures Pow2(a) <= Pow2(b)
    decreases b
  {
    if a < b { Pow2Grows(a, b - 1); }
  }

  lemma Halves(q: nat, r: nat)
    requires r < 2
    ensures (2 * q + r) / 2 == q && (2 * q + r) % 2 == r
  {
  }

  lemma RingStays(ring: nat, n: nat)
    requires ring < 2 * Pow2(n)
    ensures RingLeft(ring, n) < 2 * Pow2(n)
    ensures RingLeft(ring, n) / 2 == ring % Pow2(n) && RingLeft(ring, n) % 2 == ring / Pow2(n)
  {
    hide Pow2;
    HighFits(ring, Pow2(n), 2);
    Halves(ring % Pow2(n), ring / Pow2(n));
  }

  lemma {:induction false} RingStaysBy(ring: nat, n: nat, c: nat)
    requires ring < 2 * Pow2(n)
    ensures RingLeftBy(ring, n, c) < 2 * Pow2(n)
  {
    if c > 0 {
      RingStaysBy(ring, n, c - 1);
      RingStays(RingLeftBy(ring, n, c - 1), n);
    }
  }

  lemma StepIsInjective(x: nat, y: nat, n: nat)
    requires x < 2 * Pow2(n) && y < 2 * Pow2(n) && RingLeft(x, n) == RingLeft(y, n)
    ensures x == y
  {
    hide Pow2, RingLeft;
    RingStays(x, n);
    RingStays(y, n);
    SameParts(x, y, Pow2(n));
  }

  lemma SameParts(x: nat, y: nat, p: nat)
    requires p >= 1 && x / p == y / p && x % p == y % p
    ensures x == y
  {
    assert x == (x / p) * p + x % p && y == (y / p) * p + y % p;
  }

  lemma {:induction false} TurnIsInjective(x: nat, y: nat, n: nat, c: nat)
    requires x < 2 * Pow2(n) && y < 2 * Pow2(n) && RingLeftBy(x, n, c) == RingLeftBy(y, n, c)
    ensures x == y
  {
    if c > 0 {
      RingStaysBy(x, n, c - 1);
      RingStaysBy(y, n, c - 1);
      StepIsInjective(RingLeftBy(x, n, c - 1), RingLeftBy(y, n, c - 1), n);
      TurnIsInjective(x, y, n, c - 1);
    }
  }

  lemma {:induction false} StepCommutes(x: nat, n: nat, c: nat)
    ensures RingLeftBy(RingLeft(x, n), n, c) == RingLeft(RingLeftBy(x, n, c), n)
  {
    if c > 0 { StepCommutes(x, n, c - 1); }
  }

  // ---------- rcl ----------

  /** The two sides of the or do not overlap. */
  lemma RclIsSum(base: nat, c: nat, w: nat)
    requires 0 < c < w && base < 2 * Pow2(w)
    ensures RclBits(base, c, w) == base * Pow2(c) + base / Pow2(w + 1 - c)
    ensures base / Pow2(w + 1 - c) < Pow2(c)
  {
    Pow2Adds(w + 1 - c, c);
    Pow2Doubles(w);
    hide Pow2;
    HighFits(base, Pow2(w + 1 - c), Pow2(c));
    ShiftFits(base, c, w);
    OrOfDisjoint(base, base / Pow2(w + 1 - c), c);
  }

  /** Turning by c swaps the top c bits with the rest. */
  lemma TurnSwaps(base: nat, c: nat, w: nat)
    requires 0 < c < w && base / Pow2(w + 1 - c) < Pow2(c)
    ensures RingLeftBy(base, w, c) == base % Pow2(w + 1 - c) * Pow2(c) + base / Pow2(w + 1 - c)
  {
    hide Pow2, RingLeftBy;
    var p := Pow2(w + 1 - c);
    assert base == base / p * p + base % p;
    RingTurn(base / p, base % p, w, c);
  }

  lemma WordOfParts(base: nat, p: nat, q: nat)
    requires p >= 1 && base / p < q
    ensures var turned := base % p * q + base / p;
            turned < p * q && base * q + base / p == base / p * (p * q) + turned
  {
    var hi, lo := base / p, base % p;
    assert base == hi * p + lo;
    LowPartFits(hi, lo, p, q);
    MoveTop(hi, hi, lo, p, q);
  }

  /** The raw word rcl computes: the bits shifted out, above the turned ring. */
  lemma RclWord(base: nat, c: nat, w: nat)
    requires 0 < c < w && base < 2 * Pow2(w)
    ensures var hi := base / Pow2(w + 1 - c);
            var turned := RingLeftBy(base, w, c);
            && RclBits(base, c, w) == hi * (2 * Pow2(w)) + turned
            && turned < 2 * Pow2(w) && turned % 2 == hi % 2
  {
    assert Pow2(c) == 2 * Pow2(c - 1);
    assert Pow2(w + 1 - c) * Pow2(c) == 2 * Pow2(w) by {
      Pow2Adds(w + 1 - c, c);
      Pow2Doubles(w);
    }
    hide Pow2, RingLeftBy, RclBits;
    RclIsSum(base, c, w);
    TurnSwaps(base, c, w);
    WordOfParts(base, Pow2(w + 1 - c), Pow2(c));
    EvenPlus(base % Pow2(w + 1 - c), Pow2(c - 1), base / Pow2(w + 1 - c));
  }

  lemma EvenPlus(lo: nat, half: nat, hi: nat)
    ensures (lo * (2 * half) + hi) % 2 == hi % 2
  {
    Reassociate(lo, 2, half);
    var k := lo * half;
    assert lo * (2 * half) == 2 * k;
  }

  lemma HighFits(base: nat, p: nat, q: nat)
    requires p >= 1 && base < p * q
    ensures base / p < q
  {
    var hi, lo := base / p, base % p;
    assert base == hi * p + lo;
    if hi >= q {
      Distribute(hi - q, q, p);
    }
  }

  lemma ShiftFits(base: nat, c: nat, w: nat)
    requires 0 < c < w && base < 2 * Pow2(w)
    ensures Shl(base, c, 2 * w) == base * Pow2(c)
  {
    hide Pow2;
    Pow2Doubles(w);
    Pow2Adds(w + 1, c);
    var p, q := Pow2(w + 1), Pow2(c);
    LowPartFits(0, base, p, q);
    Pow2Grows(w + 1 + c, 2 * w);
    var shifted: nat := base * q;
    SmallMod(shifted, Pow2(2 * w));
  }

  /** The ring in the raw word of rcl: its lowest bit is above the operand. */
  lemma RingOfWord(word: nat, hi: nat, turned: nat, w: nat)
    requires word == hi * (2 * Pow2(w)) + turned && turned < 2 * Pow2(w) && turned % 2 == hi % 2
    ensures word / 2 % Pow2(w) == turned / 2 < Pow2(w) && (GetBit(word, w + 1) <==> turned % 2 == 1)
  {
    Pow2Doubles(w);
    hide Pow2, GetBit;
    BitIsQuotient(word, w + 1);
    DivMod(hi, turned, 2 * Pow2(w));
    HalfOfWord(hi, turned, Pow2(w));
  }

  lemma RingInWord(base: nat, c: nat, w: nat)
    requires 0 < c < w && base < 2 * Pow2(w)
    ensures var word, turned := RclBits(base, c, w), RingLeftBy(base, w, c);
            word / 2 % Pow2(w) == turned / 2 < Pow2(w) && (GetBit(word, w + 1) <==> turned % 2 == 1)
  {
    hide RclBits, RingLeftBy, GetBit, Pow2;
    RclWord(base, c, w);
    RingOfWord(RclBits(base, c, w), base / Pow2(w + 1 - c), RingLeftBy(base, w, c), w);
  }

  /** rcl by a reduced count is that many single-bit turns of the ring of operand and CF. */
  lemma RclTurnsRing(f: FlagBits.Flags, v: Words.u32, c: nat, size: Structs.ValueSize)
    requires v < Modulus(size) && 0 < c < Bits(size)
    ensures var (r, g) := RclWithFlags(f, v, c, size);
            r < Modulus(size) && Ring(r, g) == RingLeftBy(Ring(v, f), Bits(size), c)
  {
    hide RclBits, RingLeftBy, GetBit, Pow2, Modulus, Bits;
    SizesArePowers(size);
    RingInWord(Ring(v, f), c, Bits(size));
  }

  lemma Pow2Doubles(w: nat)
    ensures Pow2(w + 1) == 2 * Pow2(w)
  {
  }

  lemma HalfOfWord(hi: nat, turned: nat, m: nat)
    requires turned < 2 * m
    ensures (hi * (2 * m) + turned) / 2 % m == turned / 2
  {
    Halves(hi * m + turned / 2, turned % 2);
    assert hi * (2 * m) == 2 * (hi * m);
    DivMod(hi, turned / 2, m);
  }

  // ---------- rcr ----------

  /** CF above the operand: one step to the left from here is the ring of rcl. */
  lemma CarryOnTop(v: nat, f: FlagBits.Flags, w: nat)
    requires v < Pow2(w)
    ensures v + CarryBit(f) * Pow2(w) < 2 * Pow2(w)
    ensures RingLeft(v + CarryBit(f) * Pow2(w), w) == Ring(v, f)
  {
    DivMod(CarryBit(f), v, Pow2(w));
  }

  /** The low w + 1 bits of the raw word rcr computes turn left into its operand. */
  lemma RcrWord(base: nat, c: nat, w: nat)
    requires 0 < c < w && base < 2 * Pow2(w)
    ensures var back := RcrBits(base, c, w) % (2 * Pow2(w));
            RingLeftBy(back, w, c) == base
  {
    hide Pow2, RingLeftBy;
    var p, q := Pow2(c), Pow2(w + 1 - c);
    Pow2Adds(c, w + 1 - c);
    Pow2Doubles(w);
    assert p * q == 2 * Pow2(w);
    var hi, lo := base / p, base % p;
    assert base == hi * p + lo;
    HighFits(base, p, q);
    // the shifted word, reduced to 2w bits, is a multiple of q
    var r := Pow2(w - 1);
    assert Pow2(2 * w) == p * q * r by { Pow2Adds(w + 1, w - 1); Pow2Doubles(w); }
    var k := hi % r * p + lo;
    ShiftedRemainder(hi, lo, p, q, r);
    assert Shl(base, w + 1 - c, 2 * w) == k * q;
    OrOfDisjoint(k, hi, w + 1 - c);
    OrCommutes(hi, k * q);
    // its low part is lo above hi
    Distribute(hi % r * p, lo, q);
    Reassociate(hi % r, p, q);
    LowPartFits(hi, lo, p, q);
    DivMod(hi % r, lo * q + hi, p * q);
    RingTurn(lo, hi, w, c);
  }

  lemma ShiftedRemainder(hi: nat, lo: nat, p: nat, q: nat, r: nat)
    requires p >= 1 && q >= 1 && r >= 1 && lo < p
    ensures (hi * p + lo) * q % (p * q * r) == (hi % r * p + lo) * q
  {
    var a, b := hi / r, hi % r;
    assert hi == a * r + b;
    var rest := (b * p + lo) * q;
    calc {
      (hi * p + lo) * q;
      { Distribute(a * r, b, p); }
      (a * r * p + b * p + lo) * q;
      { Distribute(a * r * p, b * p + lo, q); }
      a * r * p * q + rest;
      { Reassociate(a, r, p); Reassociate(a, r * p, q); assert r * p * q == p * q * r; }
      a * (p * q * r) + rest;
    }
    LowPartFits(lo, b, r, p);
    LowPartFits(0, b * p + lo, r * p, q);
    assert r * p * q == p * q * r;
    DivMod(a, rest, p * q * r);
  }

  /** rcr by a reduced count turns the ring back: as many single-bit turns to the
      left of what it leaves give what it started from. */
  lemma RcrTurnsBack(f: FlagBits.Flags, v: Words.u32, c: nat, size: Structs.ValueSize)
    requires v < Modulus(size) && 0 < c < Bits(size)
    ensures var (r, g) := RcrWithFlags(f, v, c, size);
            r < Modulus(size) && RingLeftBy(Ring(r, g), Bits(size), c) == Ring(v, f)
  {
    hide RcrBits, RingLeftBy, GetBit, Pow2, RingLeft;
    SizesArePowers(size);
    var w := Bits(size);
    var m := Modulus(size);
    var base := v + CarryBit(f) * m;
    CarryOnTop(v, f, w);
    RcrWord(base, c, w);
    var word := RcrBits(base, c, w);
    var (r, g) := RcrWithFlags(f, v, c, size);
    var back := word % (2 * m);
    BitIsQuotient(word, w);
    TopAndRest(word, m);
    assert back == r + CarryBit(g) * m;
    CarryOnTop(r, g, w);
    StepCommutes(back, w, c);
  }

  lemma TopAndRest(word: nat, m: nat)
    requires m >= 1
    ensures word % (2 * m) == word % m + word / m % 2 * m
  {
    var q, r := word / m, word % m;
    assert word == q * m + r;
    var h, b := q / 2, q % 2;
    assert q == 2 * h + b;
    Distribute(2 * h, b, m);
    assert 2 * h * m == h * (2 * m);
    LowPartFits(r, b, 2, m);
    DivMod(h, b * m + r, 2 * m);
  }

  /** rcr undoes rcl: operand and carry come back. */
  lemma RcrUndoesRcl(f: FlagBits.Flags, v: Words.u32, c: nat, size: Structs.ValueSize)
    requires v < Modulus(size) && 0 < c < Bits(size)
    ensures var (r, g) := RclWithFlags(f, v, c, size);
            var (r', g') := RcrWithFlags(g, r, c, size);
            r' == v && g'.carry == f.carry
  {
    hide RingLeftBy, RclWithFlags, RcrWithFlags;
    SizesArePowers(size);
    RclTurnsRing(f, v, c, size);
    var (r, g) := RclWithFlags(f, v, c, size);
    RcrTurnsBack(g, r, c, size);
    var (r', g') := RcrWithFlags(g, r, c, size);
    TurnIsInjective(Ring(r', g'), Ring(v, f), Bits(size), c);
  }
}

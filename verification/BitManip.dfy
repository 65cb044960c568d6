// Reading and writing single bits of an unsigned word.

module BitManip {

  function Pow2(n: nat): (p: nat)
    ensures p >= 1
  {
    if n == 0 then 1 else 2 * Pow2(n - 1)
  }

  /** `x & (1 << i) > 0` */
  predicate GetBit(x: nat, i: nat) {
    if i == 0 then x % 2 == 1 else GetBit(x / 2, i - 1)
  }

  /** `x | (1 << i)`, or `x & !(1 << i)` when the bit is to be cleared. */
  function SetBit(x: nat, i: nat, value: bool): nat {
    if i == 0 then x - x % 2 + (if value then 1 else 0) else 2 * SetBit(x / 2, i - 1, value) + x % 2
  }

  /** Writing bit i changes what is read at i and nowhere else. */
  lemma {:induction false} GetAfterSet(x: nat, i: nat, value: bool, j: nat)
    ensures GetBit(SetBit(x, i, value), j) == if i == j then value else GetBit(x, j)
  {
    var y := SetBit(x, i, value);
    if i > 0 && j > 0 {
      assert y / 2 == SetBit(x / 2, i - 1, value);
      GetAfterSet(x / 2, i - 1, value, j - 1);
    } else if i == 0 && j > 0 {
      assert y / 2 == x / 2;
    }
  }

  lemma {:induction false} SetBitStaysInWord(x: nat, i: nat, value: bool, width: nat)
    requires x < Pow2(width) && i < width
    ensures SetBit(x, i, value) < Pow2(width)
  {
    if i > 0 {
      SetBitStaysInWord(x / 2, i - 1, value, width - 1);
    } else {
      assert Pow2(width) == 2 * Pow2(width - 1);
    }
  }

  /** A word is determined by its bits. */
  lemma {:induction false} SameBitsSameWord(x: nat, y: nat, width: nat)
    requires x < Pow2(width) && y < Pow2(width)
    requires forall i: nat :: i < width ==> GetBit(x, i) == GetBit(y, i)
    ensures x == y
  {
    if width > 0 {
      assert GetBit(x, 0) == GetBit(y, 0);
      forall i: nat | i < width - 1
        ensures GetBit(x / 2, i) == GetBit(y / 2, i)
      {
        assert GetBit(x, i + 1) == GetBit(y, i + 1);
      }
      SameBitsSameWord(x / 2, y / 2, width - 1);
    }
  }

  /** How many of the low n bits are set. */
  function OnesBelow(x: nat, n: nat): nat {
    if n == 0 then 0 else OnesBelow(x, n - 1) + if GetBit(x, n - 1) then 1 else 0
  }

  ghost function SetBits(x: nat, n: nat): set<nat> {
    set i: nat | i < n && GetBit(x, i)
  }

  lemma {:induction false} OnesAreTheSetBits(x: nat, n: nat)
    ensures OnesBelow(x, n) == |SetBits(x, n)|
  {
    if n > 0 {
      OnesAreTheSetBits(x, n - 1);
      assert n - 1 !in SetBits(x, n - 1);
      assert SetBits(x, n) == if GetBit(x, n - 1) then SetBits(x, n - 1) + {n - 1} else SetBits(x, n - 1);
    }
  }
}

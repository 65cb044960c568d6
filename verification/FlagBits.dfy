// The nine flags of the machine and the word pushf and popf exchange with the stack.

module FlagBits {
  import opened Words
  import opened BitManip

  datatype Flags = Flags(
    carry: bool, parity: bool, adjust: bool, zero: bool, sign: bool,
    trap: bool, interrupt: bool, direction: bool, overflow: bool)

  /** Parity looks at the low byte only. */
  predicate EvenParity(val: u32) {
    OnesBelow(val, 8) % 2 == 0
  }

  /** Successive set_bit calls on a word. */
  function PutBits(w: nat, puts: seq<(nat, bool)>): nat {
    if puts == [] then w
    else SetBit(PutBits(w, puts[..|puts| - 1]), puts[|puts| - 1].0, puts[|puts| - 1].1)
  }

  /** Which bit of the stored word holds which flag. */
  function Layout(f: Flags): seq<(nat, bool)> {
    [(0, f.carry), (1, true), (2, f.parity), (4, f.adjust), (6, f.zero), (7, f.sign),
     (8, f.trap), (9, f.interrupt), (10, f.direction), (11, f.overflow)]
  }

  function Serialize(f: Flags): nat {
    PutBits(0, Layout(f))
  }

  function Deserialize(w: nat): Flags {
    Flags(GetBit(w, 0), GetBit(w, 2), GetBit(w, 4), GetBit(w, 6), GetBit(w, 7),
          GetBit(w, 8), GetBit(w, 9), GetBit(w, 10), GetBit(w, 11))
  }

  /** The bit of the serialized word at any index. */
  function FlagBit(f: Flags, i: nat): bool {
    match i
    case 0 => f.carry
    case 1 => true
    case 2 => f.parity
    case 4 => f.adjust
    case 6 => f.zero
    case 7 => f.sign
    case 8 => f.trap
    case 9 => f.interrupt
    case 10 => f.direction
    case 11 => f.overflow
    case _ => false
  }

  lemma {:induction false} ZeroHasNoBits(i: nat)
    ensures !GetBit(0, i)
  {
    if i > 0 { ZeroHasNoBits(i - 1); }
  }

  lemma {:induction false} BitsAfterPuts(w: nat, puts: seq<(nat, bool)>, i: nat)
    requires forall j, k :: 0 <= j < k < |puts| ==> puts[j].0 != puts[k].0
    ensures forall j :: 0 <= j < |puts| && puts[j].0 == i ==> GetBit(PutBits(w, puts), i) == puts[j].1
    ensures (forall j :: 0 <= j < |puts| ==> puts[j].0 != i) ==> GetBit(PutBits(w, puts), i) == GetBit(w, i)
  {
    hide SetBit, GetBit;
    if puts != [] {
      var n := |puts| - 1;
      BitsAfterPuts(w, puts[..n], i);
      GetAfterSet(PutBits(w, puts[..n]), puts[n].0, puts[n].1, i);
    }
  }

  lemma {:induction false} PutsStayInWord(w: nat, puts: seq<(nat, bool)>, width: nat)
    requires w < Pow2(width)
    requires forall j :: 0 <= j < |puts| ==> puts[j].0 < width
    ensures PutBits(w, puts) < Pow2(width)
  {
    hide SetBit;
    if puts != [] {
      var n := |puts| - 1;
      PutsStayInWord(w, puts[..n], width);
      SetBitStaysInWord(PutBits(w, puts[..n]), puts[n].0, puts[n].1, width);
    }
  }

  lemma SerializedBits(f: Flags, i: nat)
    ensures GetBit(Serialize(f), i) == FlagBit(f, i)
  {
    hide GetBit, PutBits;
    ZeroHasNoBits(i);
    var puts := Layout(f);
    BitsAfterPuts(0, puts, i);
    assert && puts[0].0 == 0 && puts[1].0 == 1 && puts[2].0 == 2 && puts[3].0 == 4 && puts[4].0 == 6
           && puts[5].0 == 7 && puts[6].0 == 8 && puts[7].0 == 9 && puts[8].0 == 10 && puts[9].0 == 11;
  }

  lemma SerializedFitsWord(f: Flags)
    ensures Serialize(f) < 0x1000
  {
    hide PutBits;
    PutsStayInWord(0, Layout(f), 12);
    assert Pow2(4) == 16;
    assert Pow2(8) == 16 * Pow2(4);
    assert Pow2(12) == 16 * Pow2(8);
  }

  /** All nine flags survive serialization. */
  lemma DeserializeSerialize(f: Flags)
    ensures Deserialize(Serialize(f)) == f
  {
    hide GetBit, Serialize;
    forall i: nat { SerializedBits(f, i); }
  }

  /** What a round trip keeps of an arbitrary word: the nine flag bits; bit 1
      comes back set and every other bit clear. */
  lemma SerializeDeserialize(w: nat, i: nat)
    ensures GetBit(Serialize(Deserialize(w)), i) ==
            if i in {0, 2, 4, 6, 7, 8, 9, 10, 11} then GetBit(w, i) else i == 1
  {
    hide GetBit, Serialize;
    SerializedBits(Deserialize(w), i);
  }

  /** The flag register object inside the VM. */
  class X86Flags {
    var carry: bool
    var parity: bool
    var adjust: bool
    var zero: bool
    var sign: bool
    var trap: bool
    var interrupt: bool
    var direction: bool
    var overflow: bool

    function Value(): Flags
      reads this
    {
      Flags(carry, parity, adjust, zero, sign, trap, interrupt, direction, overflow)
    }

    constructor ()
      ensures Value() == Flags(false, false, false, false, false, false, false, false, false)
    {
      carry, parity, adjust, zero, sign := false, false, false, false, false;
      trap, interrupt, direction, overflow := false, false, false, false;
    }

    method CalculateParity(val: u32)
      modifies this
      ensures Value() == old(Value()).(parity := EvenParity(val))
    {
      var count := 0;
      for i := 0 to 8
        invariant count == OnesBelow(val, i)
      {
        if GetBit(val, i) {
          count := count + 1;
        }
      }
      parity := count % 2 == 0;
    }

    method CalculateSign8(val: u8)
      modifies this
      ensures Value() == old(Value()).(sign := val >= 0x80)
    {
      if val >= 0x80 { sign := true; } else { sign := false; }
    }

    method CalculateSign16(val: u16)
      modifies this
      ensures Value() == old(Value()).(sign := val >= 0x8000)
    {
      if val >= 0x8000 { sign := true; } else { sign := false; }
    }

    method CalculateSign32(val: u32)
      modifies this
      ensures Value() == old(Value()).(sign := val >= 0x8000_0000)
    {
      if val >= 0x8000_0000 { sign := true; } else { sign := false; }
    }

    method CalculateZero(result: u32)
      modifies this
      ensures Value() == old(Value()).(zero := result == 0)
    {
      zero := result == 0;
    }

    method SerializeFlagStorage() returns (store: u32)
      ensures store == Serialize(Value())
    {
      hide SetBit;
      ghost var puts := Layout(Value());
      var w := 0;
      assert w == PutBits(0, puts[..0]);
      w := SetBit(w, 0, carry);  assert puts[..1] == puts[..0] + [puts[0]] && w == PutBits(0, puts[..1]);
      w := SetBit(w, 1, true);  assert puts[..2] == puts[..1] + [puts[1]] && w == PutBits(0, puts[..2]);
      w := SetBit(w, 2, parity);  assert puts[..3] == puts[..2] + [puts[2]] && w == PutBits(0, puts[..3]);
      w := SetBit(w, 4, adjust);  assert puts[..4] == puts[..3] + [puts[3]] && w == PutBits(0, puts[..4]);
      w := SetBit(w, 6, zero);  assert puts[..5] == puts[..4] + [puts[4]] && w == PutBits(0, puts[..5]);
      w := SetBit(w, 7, sign);  assert puts[..6] == puts[..5] + [puts[5]] && w == PutBits(0, puts[..6]);
      w := SetBit(w, 8, trap);  assert puts[..7] == puts[..6] + [puts[6]] && w == PutBits(0, puts[..7]);
      w := SetBit(w, 9, interrupt);  assert puts[..8] == puts[..7] + [puts[7]] && w == PutBits(0, puts[..8]);
      w := SetBit(w, 10, direction);  assert puts[..9] == puts[..8] + [puts[8]] && w == PutBits(0, puts[..9]);
      w := SetBit(w, 11, overflow);  assert puts[..10] == puts[..9] + [puts[9]] && w == PutBits(0, puts[..10]);
      assert puts[..10] == puts;
      SerializedFitsWord(Value());
      store := w;
    }

    method DeserializeFlagStorage(store: u32)
      modifies this
      ensures Value() == Deserialize(store)
    {
      carry := GetBit(store, 0);
      parity := GetBit(store, 2);
      adjust := GetBit(store, 4);
      zero := GetBit(store, 6);
      sign := GetBit(store, 7);
      trap := GetBit(store, 8);
      interrupt := GetBit(store, 9);
      direction := GetBit(store, 10);
      overflow := GetBit(store, 11);
    }

    /** Overwrites all flags at once (what a hypervisor call may leave behind). */
    method Assign(f: Flags)
      modifies this
      ensures Value() == f
    {
      carry, parity, adjust, zero, sign := f.carry, f.parity, f.adjust, f.zero, f.sign;
      trap, interrupt, direction, overflow := f.trap, f.interrupt, f.direction, f.overflow;
    }
  }
}

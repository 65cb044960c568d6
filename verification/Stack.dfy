// What the stack instructions undo: pusha and popa, pushf and popf, call and ret.

module Stack {
  import opened Words
  import opened Errors
  import opened Structs
  import opened Memory
  import opened FlagBits
  import opened VMState
  import opened Opcodes
  import opened Fetch
  import opened Ops

  // ---------- memory ----------

  /** Four-byte cells that share no byte, even around the end of the address space. */
  predicate Apart(a: u32, b: u32) {
    4 <= Wrap32(a as int - b as int) <= 0x1_0000_0000 - 4
  }

  lemma ApartInBlock(a: u32, b: u32)
    requires Apart(a, b) && BlockOf(a) == BlockOf(b)
    ensures Local(a) + 4 <= Local(b) || Local(b) + 4 <= Local(a)
  {
  }

  lemma WrittenBlock(m: Mem, a: u32, bytes: seq<u8>)
    requires |bytes| == 4 && Write(m, a, bytes).Ok?
    ensures var n := Write(m, a, bytes).value;
            && n.Keys == m.Keys && (forall k :: k in m ==> |n[k]| == |m[k]|)
            && n[BlockOf(a)][Local(a)..Local(a) + 4] == bytes
            && (forall k, x :: k in m && 0 <= x < |m[k]| && !(k == BlockOf(a) && Local(a) <= x < Local(a) + 4) ==>
                  n[k][x] == m[k][x])
  {
  }

  lemma ReadBack(m: Mem, a: u32, bytes: seq<u8>)
    requires |bytes| == 4 && Write(m, a, bytes).Ok?
    ensures Read(Write(m, a, bytes).value, a, 4) == Ok(bytes)
  {
    var n := Write(m, a, bytes).value;
    WrittenBlock(m, a, bytes);
    hide Write;
    assert n[BlockOf(a)][Local(a)..][..4] == bytes;
  }

  lemma ReadApart(m: Mem, a: u32, bytes: seq<u8>, b: u32)
    requires |bytes| == 4 && Write(m, a, bytes).Ok? && Apart(a, b)
    ensures Read(Write(m, a, bytes).value, b, 4) == Read(m, b, 4)
  {
    var n := Write(m, a, bytes).value;
    WrittenBlock(m, a, bytes);
    if BlockOf(a) == BlockOf(b) {
      ApartInBlock(a, b);
    }
    hide Write;
    if Read(m, b, 4).Ok? {
      assert n[BlockOf(b)][Local(b)..][..4] == m[BlockOf(b)][Local(b)..][..4];
    }
  }

  lemma StoreThenLoad(m: Mem, a: u32, d: u32, b: u32)
    requires SetMem(m, a, Dword(d)).Ok?
    ensures var n := SetMem(m, a, Dword(d)).value;
            && GetMem(n, a, SizeDword) == Ok(Dword(d))
            && (Apart(a, b) ==> GetMem(n, b, SizeDword) == GetMem(m, b, SizeDword))
  {
    hide Write, Read;
    ReadBack(m, a, Bytes32(d));
    if Apart(a, b) {
      ReadApart(m, a, Bytes32(d), b);
    }
  }

  // ---------- pushed cells ----------

  /** The address of the i-th cell from the top. */
  function Cell(esp: u32, i: nat): u32 {
    Wrap32(esp + 4 * i)
  }

  /** The cells from `esp` upwards hold these values. */
  ghost predicate Holds(m: Mem, esp: u32, vs: seq<u32>) {
    forall i :: 0 <= i < |vs| ==> GetMem(m, Cell(esp, i), SizeDword) == Ok(Dword(vs[i]))
  }

  /** Whether offset x of block k belongs to one of the n cells from `esp` upwards. */
  ghost predicate InCells(k: u32, x: int, esp: u32, n: nat) {
    exists i :: 0 <= i < n && k == BlockOf(Cell(esp, i)) && Local(Cell(esp, i)) <= x < Local(Cell(esp, i)) + 4
  }

  /** Memory is the same but for the n cells from `esp` upwards. */
  ghost predicate OnlyCellsChanged(m: Mem, m': Mem, esp: u32, n: nat) {
    && m'.Keys == m.Keys && (forall k :: k in m ==> |m'[k]| == |m[k]|)
    && (forall k, x :: k in m && 0 <= x < |m[k]| && !InCells(k, x, esp, n) ==> m'[k][x] == m[k][x])
  }

  /** `d` is `c` after pushing the values `vs`, the last one pushed first. */
  ghost predicate Stacked(c: Cpu, d: Cpu, vs: seq<u32>) {
    && d == c.(mem := d.mem, regs := c.regs[ESP := Wrap32(c.regs[ESP] as int - 4 * |vs|)])
    && Holds(d.mem, d.regs[ESP], vs)
    && OnlyCellsChanged(c.mem, d.mem, d.regs[ESP], |vs|)
  }

  lemma CellsShift(esp: u32, i: nat)
    ensures Cell(Wrap32(esp as int - 4), i + 1) == Cell(esp, i)
  {
  }

  lemma CellApart(esp: u32, i: nat)
    requires 0 < i < 0x1000_0000
    ensures Apart(esp, Cell(esp, i))
  {
  }

  lemma InCellsGrows(k: u32, x: int, esp: u32, n: nat)
    ensures InCells(k, x, esp, n) ==> InCells(k, x, Wrap32(esp as int - 4), n + 1)
  {
    hide Cell, BlockOf, Local;
    if InCells(k, x, esp, n) {
      var i :| 0 <= i < n && k == BlockOf(Cell(esp, i)) && Local(Cell(esp, i)) <= x < Local(Cell(esp, i)) + 4;
      CellsShift(esp, i);
      assert 0 <= i + 1 < n + 1;
    }
  }

  lemma TopInCells(k: u32, x: int, top: u32, n: nat)
    requires k == BlockOf(top) && Local(top) <= x < Local(top) + 4 && n > 0
    ensures InCells(k, x, top, n)
  {
    FirstCell(top);
  }

  lemma CellsGrow(m: Mem, m': Mem, esp: u32, n: nat, d: u32)
    requires OnlyCellsChanged(m, m', esp, n)
    requires SetMem(m', Wrap32(esp as int - 4), Dword(d)).Ok?
    ensures OnlyCellsChanged(m, SetMem(m', Wrap32(esp as int - 4), Dword(d)).value, Wrap32(esp as int - 4), n + 1)
  {
    var top := Wrap32(esp as int - 4);
    var m2 := SetMem(m', top, Dword(d)).value;
    WrittenBlock(m', top, Bytes32(d));
    hide Write, SetMem, InCells, Bytes32, Wrap32, BlockOf, Local;
    forall k, x | k in m && 0 <= x < |m[k]| && !InCells(k, x, top, n + 1)
      ensures m2[k][x] == m[k][x]
    {
      InCellsGrows(k, x, esp, n);
      if k == BlockOf(top) && Local(top) <= x < Local(top) + 4 {
        TopInCells(k, x, top, n + 1);
      }
    }
  }

  lemma CellsHold(m: Mem, esp: u32, vs: seq<u32>, v: u32)
    requires Holds(m, esp, vs) && |vs| < 0x100 && SetMem(m, Wrap32(esp as int - 4), Dword(v)).Ok?
    ensures Holds(SetMem(m, Wrap32(esp as int - 4), Dword(v)).value, Wrap32(esp as int - 4), [v] + vs)
  {
    hide SetMem, GetMem, Apart, Wrap32, Cell;
    var top := Wrap32(esp as int - 4);
    var m' := SetMem(m, top, Dword(v)).value;
    forall i | 0 <= i < |vs| + 1
      ensures GetMem(m', Cell(top, i), SizeDword) == Ok(Dword(([v] + vs)[i]))
    {
      StoreThenLoad(m, top, v, Cell(top, i));
      if i > 0 {
        CellApart(top, i);
        CellsShift(esp, i - 1);
      } else {
        FirstCell(top);
      }
    }
  }

  lemma FirstCell(esp: u32)
    ensures Cell(esp, 0) == esp
  {
  }

  lemma PushStores(d: Cpu, v: u32)
    requires Push(d, Dword(v), false).Done?
    ensures var top := Wrap32(d.regs[ESP] as int - 4);
            && SetMem(d.mem, top, Dword(v)).Ok?
            && Push(d, Dword(v), false).value
               == d.(mem := SetMem(d.mem, top, Dword(v)).value, regs := d.regs[ESP := top])
  {
    hide SetMem, Wrap32;
  }

  lemma OneMoreCell(esp: u32, n: nat)
    ensures Wrap32(Wrap32(esp as int - 4 * n) as int - 4) == Wrap32(esp as int - 4 * (n + 1))
  {
  }

  /** One more push. */
  lemma OnePush(c: Cpu, d: Cpu, v: u32, vs: seq<u32>, all: seq<u32>)
    requires Stacked(c, d, vs) && |vs| < 0x100 && Push(d, Dword(v), false).Done? && all == [v] + vs
    ensures Stacked(c, Push(d, Dword(v), false).value, all)
  {
    var esp := d.regs[ESP];
    var top := Wrap32(esp as int - 4);
    OneMoreCell(c.regs[ESP], |vs|);
    hide SetMem, GetMem, OnlyCellsChanged, Push, Holds, Wrap32;
    PushStores(d, v);
    CellsGrow(c.mem, d.mem, esp, |vs|, v);
    CellsHold(d.mem, esp, vs, v);
    assert d.regs[ESP := top] == c.regs[ESP := top];
  }

  lemma OnePushReg(c: Cpu, d: Cpu, r: u3, vs: seq<u32>, all: seq<u32>)
    requires Stacked(c, d, vs) && |vs| < 0x100 && PushReg(d, r, false).Done? && r != ESP && all == [c.regs[r]] + vs
    ensures Stacked(c, PushReg(d, r, false).value, all)
  {
    OnePush(c, d, c.regs[r], vs, all) by { hide Push, Holds, OnlyCellsChanged; }
    hide Push, Holds, OnlyCellsChanged;
    assert PushReg(d, r, false) == Push(d, Dword(c.regs[r]), false);
  }

  lemma NothingPushed(c: Cpu)
    ensures Stacked(c, c, [])
  {
    assert c.regs[ESP := c.regs[ESP]] == c.regs;
  }

  // ---------- pusha, popa ----------

  lemma EightPushes(c: Cpu)
    requires PushAllOp(c, false).Done?
    ensures Stacked(c, PushAllOp(c, false).value,
                    [c.regs[EDI], c.regs[ESI], c.regs[EBP], c.regs[ESP], c.regs[EBX], c.regs[EDX], c.regs[ECX], c.regs[EAX]])
  {
    hide Push, PushReg, Stacked;
    var r := c.regs;
    NothingPushed(c);
    OnePushReg(c, c, EAX, [], [r[EAX]]);
    var c1 := PushReg(c, EAX, false).value;
    OnePushReg(c, c1, ECX, [r[EAX]], [r[ECX], r[EAX]]);
    var c2 := PushReg(c1, ECX, false).value;
    OnePushReg(c, c2, EDX, [r[ECX], r[EAX]], [r[EDX], r[ECX], r[EAX]]);
    var c3 := PushReg(c2, EDX, false).value;
    OnePushReg(c, c3, EBX, [r[EDX], r[ECX], r[EAX]], [r[EBX], r[EDX], r[ECX], r[EAX]]);
    var c4 := PushReg(c3, EBX, false).value;
    OnePush(c, c4, r[ESP], [r[EBX], r[EDX], r[ECX], r[EAX]], [r[ESP], r[EBX], r[EDX], r[ECX], r[EAX]]);
    var c5 := Push(c4, Dword(r[ESP]), false).value;
    var five := [r[ESP], r[EBX], r[EDX], r[ECX], r[EAX]];
    OnePushReg(c, c5, EBP, five, [r[EBP]] + five);
    var c6 := PushReg(c5, EBP, false).value;
    OnePushReg(c, c6, ESI, [r[EBP]] + five, [r[ESI], r[EBP]] + five);
    var c7 := PushReg(c6, ESI, false).value;
    OnePushReg(c, c7, EDI, [r[ESI], r[EBP]] + five, [r[EDI], r[ESI], r[EBP]] + five);
    assert [r[EDI], r[ESI], r[EBP]] + five
        == [r[EDI], r[ESI], r[EBP], r[ESP], r[EBX], r[EDX], r[ECX], r[EAX]];
  }

  lemma CellsAdd(esp: u32, i: nat, j: nat)
    ensures Cell(Cell(esp, i), j) == Cell(esp, i + j)
  {
  }

  /** pusha leaves the eight registers on the stack, EDI on top, and touches
      nothing but those 32 bytes. */
  lemma PushAllStacks(c: Cpu, p: Slot)
    requires !p.sizeOverride && CpuOp(c, PushAll, p).Done?
    ensures Stacked(c, CpuOp(c, PushAll, p).value,
                    [c.regs[EDI], c.regs[ESI], c.regs[EBP], c.regs[ESP], c.regs[EBX], c.regs[EDX], c.regs[ECX], c.regs[EAX]])
  {
    hide PushAllOp, Stacked;
    EightPushes(c);
  }

  /** One pop from cells that hold `vs`. */
  lemma OnePop(c: Cpu, vs: seq<u32>)
    requires vs != [] && Holds(c.mem, c.regs[ESP], vs)
    ensures Pop(c, SizeDword) == Done((WithReg(c, ESP, Cell(c.regs[ESP], 1)), Dword(vs[0])))
  {
    hide GetMem;
    FirstCell(c.regs[ESP]);
  }

  /** i pops. */
  function Popped(c: Cpu, i: nat): Cpu {
    WithReg(c, ESP, Cell(c.regs[ESP], i))
  }

  lemma PopsFrom(c: Cpu, vs: seq<u32>, i: nat)
    requires i < |vs| && Holds(c.mem, c.regs[ESP], vs)
    ensures Pop(Popped(c, i), SizeDword) == Done((Popped(c, i + 1), Dword(vs[i])))
  {
    hide GetMem;
    var esp := c.regs[ESP];
    CellsAdd(esp, i, 1);
    assert c.regs[ESP := Cell(esp, i)][ESP := Cell(esp, i + 1)] == c.regs[ESP := Cell(esp, i + 1)];
  }

  lemma SetAllPopped(r: Regs, vs: seq<u32>)
    requires |vs| == 8
    ensures SetPopped(r, Dword(vs[0]), Dword(vs[1]), Dword(vs[2]), Dword(vs[4]), Dword(vs[5]), Dword(vs[6]), Dword(vs[7]))
         == [vs[7], vs[6], vs[5], vs[4], r[ESP], vs[2], vs[1], vs[0]]
  {
  }

  lemma NothingPopped(c: Cpu)
    ensures Popped(c, 0) == c
  {
    assert c.regs[ESP := Cell(c.regs[ESP], 0)] == c.regs;
  }

  lemma EightPops(c: Cpu, vs: seq<u32>)
    requires |vs| == 8 && Holds(c.mem, c.regs[ESP], vs)
    ensures var t := Popped(c, 8);
            PopAllOp(c, false) ==
              Done(t.(regs := SetPopped(t.regs, Dword(vs[0]), Dword(vs[1]), Dword(vs[2]), Dword(vs[4]), Dword(vs[5]),
                                        Dword(vs[6]), Dword(vs[7]))))
  {
    hide Pop, Holds, Cell, SetPopped, Popped;
    NothingPopped(c);
    PopsFrom(c, vs, 0);
    PopsFrom(c, vs, 1);
    PopsFrom(c, vs, 2);
    PopsFrom(c, vs, 3);
    PopsFrom(c, vs, 4);
    PopsFrom(c, vs, 5);
    PopsFrom(c, vs, 6);
    PopsFrom(c, vs, 7);
  }

  lemma PopAllFromCells(c: Cpu, vs: seq<u32>)
    requires |vs| == 8 && Holds(c.mem, c.regs[ESP], vs)
    ensures PopAllOp(c, false) ==
              Done(c.(regs := [vs[7], vs[6], vs[5], vs[4], Cell(c.regs[ESP], 8), vs[2], vs[1], vs[0]]))
  {
    hide PopAllOp, Holds, Cell, SetPopped;
    EightPops(c, vs);
    SetAllPopped(Popped(c, 8).regs, vs);
  }

  lemma AllRegs(r: Regs)
    ensures r == [r[EAX], r[ECX], r[EDX], r[EBX], r[ESP], r[EBP], r[ESI], r[EDI]]
  {
  }

  lemma EightBack(c: Cpu, u: Cpu)
    requires PushAllOp(c, false).Done?
    requires u.mem == PushAllOp(c, false).value.mem && u.regs[ESP] == PushAllOp(c, false).value.regs[ESP]
    ensures PopAllOp(u, false) == Done(u.(regs := c.regs))
    ensures OnlyCellsChanged(c.mem, u.mem, Wrap32(c.regs[ESP] as int - 32), 8)
  {
    hide PushAllOp, PopAllOp, Holds, OnlyCellsChanged;
    var r := c.regs;
    var vs := [r[EDI], r[ESI], r[EBP], r[ESP], r[EBX], r[EDX], r[ECX], r[EAX]];
    EightPushes(c);
    PopAllFromCells(u, vs);
    assert Cell(u.regs[ESP], 8) == r[ESP];
    AllRegs(r);
  }

  /** popa after pusha restores all eight registers, whatever code in between
      has put into seven of them, and only the 32 bytes below ESP have changed. */
  lemma PopAllUndoesPushAll(c: Cpu, p: Slot, u: Cpu, q: Slot)
    requires !p.sizeOverride && !q.sizeOverride && CpuOp(c, PushAll, p).Done?
    requires u.mem == CpuOp(c, PushAll, p).value.mem && u.regs[ESP] == CpuOp(c, PushAll, p).value.regs[ESP]
    ensures CpuOp(u, PopAll, q) == Done(u.(regs := c.regs))
    ensures OnlyCellsChanged(c.mem, u.mem, Wrap32(c.regs[ESP] as int - 32), 8)
  {
    hide PushAllOp, PopAllOp, OnlyCellsChanged;
    EightBack(c, u);
  }

  // ---------- pushf, popf ----------

  lemma FlagsBack(c: Cpu, p: Slot, u: Cpu)
    requires !p.sizeOverride && PushFlagsOp(c, p).Done?
    requires u.mem == PushFlagsOp(c, p).value.mem && u.regs[ESP] == PushFlagsOp(c, p).value.regs[ESP]
    ensures PopFlagsOp(u) == Done(u.(flags := c.flags, regs := u.regs[ESP := c.regs[ESP]]))
    ensures OnlyCellsChanged(c.mem, u.mem, Wrap32(c.regs[ESP] as int - 4), 1)
  {
    hide Serialize, Deserialize, Push, GetMem;
    NothingPushed(c);
    OnePush(c, c, Serialize(c.flags) % 0x1_0000_0000, [], [Serialize(c.flags) % 0x1_0000_0000]);
    SerializedFitsWord(c.flags);
    DeserializeSerialize(c.flags);
    hide Stacked, OnlyCellsChanged;
    StackedTop(c, PushFlagsOp(c, p).value, Serialize(c.flags));
    OnePop(u, [Serialize(c.flags)]);
    hide Pop;
  }

  /** popf after pushf restores all nine flags, whatever has become of them. */
  lemma PopFlagsUndoesPushFlags(c: Cpu, p: Slot, u: Cpu, q: Slot)
    requires !p.sizeOverride && CpuOp(c, PushFlags, p).Done?
    requires u.mem == CpuOp(c, PushFlags, p).value.mem && u.regs[ESP] == CpuOp(c, PushFlags, p).value.regs[ESP]
    ensures CpuOp(u, PopFlags, q) == Done(u.(flags := c.flags, regs := u.regs[ESP := c.regs[ESP]]))
    ensures OnlyCellsChanged(c.mem, u.mem, Wrap32(c.regs[ESP] as int - 4), 1)
  {
    hide PushFlagsOp, PopFlagsOp, OnlyCellsChanged;
    FlagsBack(c, p, u);
  }

  lemma StackedTop(c: Cpu, d: Cpu, v: u32)
    requires Stacked(c, d, [v])
    ensures Holds(d.mem, d.regs[ESP], [v]) && OnlyCellsChanged(c.mem, d.mem, d.regs[ESP], 1)
    ensures d.regs[ESP] == Wrap32(c.regs[ESP] as int - 4) && Cell(d.regs[ESP], 1) == c.regs[ESP]
  {
    hide Holds, OnlyCellsChanged;
  }

  // ---------- call, ret ----------

  /** What the opcode table makes of a call and a ret: a second operand that is
      absent, no size prefix. */
  predicate IsNearCall(p: Slot) {
    (p.op == CallRelative || p.op == CallAbsolute) && p.args[1].location == NoArg && !p.sizeOverride
  }

  lemma CallStacks(c: Cpu, p: Slot)
    requires IsNearCall(p) && CpuOp(c, p.op, p).Done?
    ensures var t := CpuOp(c, p.op, p).value;
            && Stacked(c, t.(eip := c.eip), [Wrap32(c.eip + p.eipSize)])
  {
    hide Push, GetArg, JumpBase, Stacked;
    NothingPushed(c);
    OnePush(c, c, Wrap32(c.eip + p.eipSize), [], [Wrap32(c.eip + p.eipSize)]);
  }

  lemma CallLeaves(c: Cpu, p: Slot)
    requires IsNearCall(p) && CpuOp(c, p.op, p).Done?
    ensures var t := CpuOp(c, p.op, p).value;
            && GetMem(t.mem, t.regs[ESP], SizeDword) == Ok(Dword(Wrap32(c.eip + p.eipSize)))
            && t.regs[ESP] == Wrap32(c.regs[ESP] as int - 4) && Cell(t.regs[ESP], 1) == c.regs[ESP]
            && OnlyCellsChanged(c.mem, t.mem, t.regs[ESP], 1)
  {
    CallStacks(c, p);
    hide CpuOp, Stacked, OnlyCellsChanged, GetMem;
    var t := CpuOp(c, p.op, p).value;
    StackedTop(c, t.(eip := c.eip), Wrap32(c.eip + p.eipSize));
    FirstCell(t.regs[ESP]);
  }

  /** A ret that finds the stack as the call left it lands after the call, with
      ESP as before the call plus what it is told to release. */
  lemma RetResumesAfterCall(c: Cpu, p: Slot, u: Cpu, q: Slot, release: u16)
    requires IsNearCall(p) && CpuOp(c, p.op, p).Done?
    requires q.op == Ret && !q.sizeOverride
    requires var v := GetArg(u.regs, u.mem, q.args[0].location); v.Ok? && v.value.U16Zx() == Ok(release)
    requires var t := CpuOp(c, p.op, p).value;
             && u.regs[ESP] == t.regs[ESP]
             && GetMem(u.mem, u.regs[ESP], SizeDword) == GetMem(t.mem, t.regs[ESP], SizeDword)
    ensures var r := CpuOp(u, q.op, q);
            && r.Done?
            && Wrap32(r.value.eip + q.eipSize) == Wrap32(c.eip + p.eipSize)
            && r.value == u.(eip := r.value.eip, regs := u.regs[ESP := Wrap32(c.regs[ESP] + release)])
    ensures OnlyCellsChanged(c.mem, CpuOp(c, p.op, p).value.mem, Wrap32(c.regs[ESP] as int - 4), 1)
  {
    hide CpuOp, OnlyCellsChanged, GetArg, GetMem, Wrap32, Cell;
    CallLeaves(c, p);
    var back := Wrap32(c.eip + p.eipSize);
    RetFromCell(u, q, back, release);
    ThereAndBack(back, q.eipSize);
  }

  lemma ThereAndBack(a: u32, size: u8)
    ensures Wrap32(Wrap32(a as int - size as int) + size) == a
  {
  }

  lemma RetFromCell(u: Cpu, q: Slot, back: u32, release: u16)
    requires q.op == Ret && !q.sizeOverride
    requires var v := GetArg(u.regs, u.mem, q.args[0].location); v.Ok? && v.value.U16Zx() == Ok(release)
    requires GetMem(u.mem, u.regs[ESP], SizeDword) == Ok(Dword(back))
    ensures CpuOp(u, q.op, q) ==
              Done(u.(eip := Wrap32(back as int - q.eipSize as int),
                      regs := u.regs[ESP := Wrap32(Cell(u.regs[ESP], 1) + release)]))
  {
    assert CpuOp(u, q.op, q) == RetOp(u, q) by { hide RetOp; }
    hide CpuOp, GetArg, GetMem, Cell, Wrap32, RetOp;
    PopsReturn(u, back);
    var esp := Cell(u.regs[ESP], 1);
    RetFrom(u, q, esp, back, release);
    SetTwice(u.regs, esp, Wrap32(esp + release));
  }

  lemma RetFrom(u: Cpu, q: Slot, esp: u32, back: u32, release: u16)
    requires !q.sizeOverride && Pop(u, SizeDword) == Done((WithReg(u, ESP, esp), Dword(back)))
    requires var v := GetArg(u.regs, u.mem, q.args[0].location); v.Ok? && v.value.U16Zx() == Ok(release)
    ensures RetOp(u, q) ==
              Done(u.(eip := Wrap32(back as int - q.eipSize as int), regs := u.regs[ESP := esp][ESP := Wrap32(esp + release)]))
  {
    hide GetArg, Pop, Wrap32;
  }

  lemma PopsReturn(u: Cpu, back: u32)
    requires GetMem(u.mem, u.regs[ESP], SizeDword) == Ok(Dword(back))
    ensures Pop(u, SizeDword) == Done((WithReg(u, ESP, Cell(u.regs[ESP], 1)), Dword(back)))
  {
    hide GetMem;
  }

  lemma SetTwice(r: Regs, v: u32, w: u32)
    ensures r[ESP := v][ESP := w] == r[ESP := w]
  {
  }
}

// What rep movsb copies.

module StringResults {
  import opened Words
  import opened Errors
  import opened Structs
  import opened Memory
  import opened VMState
  import opened Opcodes
  import Fetch
  import Arithmetic
  import opened Ops
  import Rotate
  import opened Strings

  // ---------- rep movsb ----------

  function Put(block: seq<u8>, i: nat, v: u8): seq<u8>
    requires i < |block|
  {
    block[i := v]
  }

  lemma ByteReads(m: Mem, a: u32)
    requires BlockOf(a) in m && Local(a) < |m[BlockOf(a)]|
    ensures GetMem(m, a, SizeByte) == Ok(Byte(m[BlockOf(a)][Local(a)]))
  {
  }

  lemma ByteWrites(m: Mem, a: u32, v: u8)
    requires a >= WRITEABLE_MEMORY && BlockOf(a) in m && Local(a) < |m[BlockOf(a)]|
    ensures SetMem(m, a, Byte(v)) == Ok(m[BlockOf(a) := Put(m[BlockOf(a)], Local(a), v)])
  {
    var block, lo := m[BlockOf(a)], Local(a);
    assert block[..lo] + [v] + block[lo + 1..] == Put(block, lo, v);
  }

  lemma SameBlock(a: u32, i: nat)
    requires Local(a) + i < 0x1_0000
    ensures a + i < 0x1_0000_0000 && BlockOf(a + i) == BlockOf(a) && Local(a + i) == Local(a) + i
  {
  }

  /** n bytes from `a` on lie in one existing block. */
  predicate InBlock(m: Mem, a: u32, n: nat) {
    BlockOf(a) in m && Local(a) + n <= |m[BlockOf(a)]| && Local(a) + n <= 0x1_0000
  }

  /** The distance after which a forward copy inside one block reads what it
      has written; 0 when it never does. */
  function Period(c: Cpu): nat {
    if BlockOf(c.regs[ESI]) == BlockOf(c.regs[EDI]) && c.regs[ESI] < c.regs[EDI] then c.regs[EDI] - c.regs[ESI] else 0
  }

  function SourceOffset(k: nat, period: nat): nat {
    if period == 0 then k else k % period
  }

  /** The destination block after i bytes: byte k of the destination is byte k of
      the source as it was, or byte k mod period when the copy overtakes itself. */
  function CopiedBlock(into: seq<u8>, from: seq<u8>, src: nat, dst: nat, i: nat, period: nat): (b: seq<u8>)
    requires dst + i <= |into| && src + i <= |from|
    ensures |b| == |into|
  {
    seq(|into|, x requires 0 <= x < |into| =>
      if dst <= x < dst + i then Below(x - dst, i, period); from[src + SourceOffset(x - dst, period)] else into[x])
  }

  lemma Below(k: nat, i: nat, period: nat)
    requires k < i
    ensures 0 <= SourceOffset(k, period) < i
  {
    if period > 0 && k >= period {
      assert k % period < period;
    }
  }

  predicate CanCopy(c: Cpu, n: nat) {
    && InBlock(c.mem, c.regs[ESI], n) && InBlock(c.mem, c.regs[EDI], n)
    && c.regs[EDI] >= WRITEABLE_MEMORY && !c.flags.direction
  }

  /** The cpu after i bytes of rep movsb. */
  function Copied(c: Cpu, i: nat): Cpu
    requires CanCopy(c, i) && i <= c.regs[ECX]
  {
    var from, into := c.mem[BlockOf(c.regs[ESI])], c.mem[BlockOf(c.regs[EDI])];
    c.(regs := c.regs[EDI := Wrap32(c.regs[EDI] + i)][ESI := Wrap32(c.regs[ESI] + i)][ECX := c.regs[ECX] - i],
       mem := c.mem[BlockOf(c.regs[EDI]) :=
                      CopiedBlock(into, from, Local(c.regs[ESI]), Local(c.regs[EDI]), i, Period(c))])
  }

  lemma PeriodStep(k: nat, period: nat)
    requires period > 0 && k >= period
    ensures (k - period) % period == k % period
  {
    var q, r := (k - period) / period, (k - period) % period;
    assert k - period == q * period + r;
    Rotate.Distribute(q, 1, period);
    Rotate.DivMod(q + 1, r, period);
  }

  /** The byte that the next turn reads is the one it should copy. */
  lemma NextByte(c: Cpu, i: nat, n: nat)
    requires i < n && CanCopy(c, n) && n <= c.regs[ECX]
    ensures var t := Copied(c, i);
            var from := c.mem[BlockOf(c.regs[ESI])];
            var k := SourceOffset(i, Period(c));
            k <= i
            && BlockOf(c.regs[ESI]) in t.mem && Local(c.regs[ESI]) + i < |t.mem[BlockOf(c.regs[ESI])]|
            && t.mem[BlockOf(c.regs[ESI])][Local(c.regs[ESI]) + i] == from[Local(c.regs[ESI]) + k]
  {
    var d := Period(c);
    var from, into := c.mem[BlockOf(c.regs[ESI])], c.mem[BlockOf(c.regs[EDI])];
    var src, dst := Local(c.regs[ESI]), Local(c.regs[EDI]);
    Below(i, i + 1, d);
    if BlockOf(c.regs[ESI]) == BlockOf(c.regs[EDI]) {
      if d > 0 {
        assert dst - src == d;
        OverlapByte(from, src, dst, i, d);
      } else {
        assert dst <= src;
        assert CopiedBlock(from, from, src, dst, i, 0)[src + i] == from[src + i];
      }
    }
  }

  lemma OverlapByte(block: seq<u8>, src: nat, dst: nat, i: nat, d: nat)
    requires d > 0 && dst == src + d && dst + i < |block|
    ensures SourceOffset(i, d) <= i
    ensures CopiedBlock(block, block, src, dst, i, d)[src + i] == block[src + SourceOffset(i, d)]
  {
    Below(i, i + 1, d);
    if i >= d {
      PeriodStep(i, d);
      var x := src + i;
      assert x - dst == i - d && dst <= x < dst + i;
      assert CopiedBlock(block, block, src, dst, i, d)[x] == block[src + SourceOffset(x - dst, d)];
    } else {
      Arithmetic.SmallMod(i, d);
    }
  }

  /** One byte moved, from what is read to what is written. */
  lemma ByteMoves(t: Cpu, v: u8)
    requires InBlock(t.mem, t.regs[ESI], 1) && InBlock(t.mem, t.regs[EDI], 1) && t.regs[EDI] >= WRITEABLE_MEMORY
    requires !t.flags.direction && t.regs[ECX] > 0 && v == t.mem[BlockOf(t.regs[ESI])][Local(t.regs[ESI])]
    ensures var into := t.mem[BlockOf(t.regs[EDI])];
            Turn(t, Movs(Narrow), false) ==
              Done(t.(mem := t.mem[BlockOf(t.regs[EDI]) := Put(into, Local(t.regs[EDI]), v)],
                      regs := t.regs[EDI := Wrap32(t.regs[EDI] as int + 1)][ESI := Wrap32(t.regs[ESI] as int + 1)]
                                    [ECX := t.regs[ECX] - 1]))
  {
    ByteReads(t.mem, t.regs[ESI]);
    ByteWrites(t.mem, t.regs[EDI], v);
    var into := t.mem[BlockOf(t.regs[EDI])];
    var done := t.mem[BlockOf(t.regs[EDI]) := Put(into, Local(t.regs[EDI]), v)];
    hide GetMem, SetMem, BlockOf, Local, Put;
    MovesOneByte(t, v, done);
    hide MovsOp;
    assert StringOp(t, Movs(Narrow), false) == MovsOp(t, SizeByte);
    hide StringOp;
    assert Wrap32(t.regs[ECX] as int - 1) == t.regs[ECX] - 1;
  }

  lemma MovesOneByte(t: Cpu, v: u8, done: Mem)
    requires GetMem(t.mem, t.regs[ESI], SizeByte) == Ok(Byte(v)) && SetMem(t.mem, t.regs[EDI], Byte(v)) == Ok(done)
    requires !t.flags.direction
    ensures MovsOp(t, SizeByte) ==
              Done(t.(mem := done, regs := t.regs[EDI := Wrap32(t.regs[EDI] as int + 1)]
                                                 [ESI := Wrap32(t.regs[ESI] as int + 1)]))
  {
    hide GetMem, SetMem, Wrap32;
  }

  /** The next byte can be moved too. */
  lemma ReadyForNext(c: Cpu, i: nat, n: nat)
    requires i < n && CanCopy(c, n) && n <= c.regs[ECX]
    ensures var t := Copied(c, i);
            && InBlock(t.mem, t.regs[ESI], 1) && InBlock(t.mem, t.regs[EDI], 1) && t.regs[EDI] >= WRITEABLE_MEMORY
            && !t.flags.direction && t.regs[ECX] > 0
            && BlockOf(t.regs[EDI]) == BlockOf(c.regs[EDI]) && Local(t.regs[EDI]) == Local(c.regs[EDI]) + i
            && SourceOffset(i, Period(c)) <= i
            && t.mem[BlockOf(t.regs[ESI])][Local(t.regs[ESI])]
               == c.mem[BlockOf(c.regs[ESI])][Local(c.regs[ESI]) + SourceOffset(i, Period(c))]
  {
    hide CopiedBlock, Period, SourceOffset, BlockOf, Local, Wrap32;
    var src, dst := c.regs[ESI], c.regs[EDI];
    SameBlock(src, i);
    SameBlock(dst, i);
    NoWrap(src + i);
    NoWrap(dst + i);
    NextByte(c, i, n);
  }

  lemma NoWrap(x: u32)
    ensures Wrap32(x) == x
  {
  }

  /** One more byte. */
  lemma CopyTurn(c: Cpu, i: nat, n: nat)
    requires i < n && CanCopy(c, n) && n <= c.regs[ECX]
    ensures Turn(Copied(c, i), Movs(Narrow), false) == Done(Copied(c, i + 1))
  {
    hide CopiedBlock, Period, SourceOffset, Turn, Wrap32;
    ReadyForNext(c, i, n);
    var t := Copied(c, i);
    var src, dst := c.regs[ESI], c.regs[EDI];
    var from, into := c.mem[BlockOf(src)], c.mem[BlockOf(dst)];
    ByteMoves(t, from[Local(src) + SourceOffset(i, Period(c))]);
    BlockGrows(into, from, Local(src), Local(dst), i, Period(c));
    RegsAdvance(c.regs, i);
    hide InBlock, BlockOf, Local;
    var before := CopiedBlock(into, from, Local(src), Local(dst), i, Period(c));
    var grown := CopiedBlock(into, from, Local(src), Local(dst), i + 1, Period(c));
    UpdateTwice(c.mem, BlockOf(dst), before, grown);
  }

  lemma UpdateTwice(m: Mem, k: u32, a: seq<u8>, b: seq<u8>)
    ensures m[k := a][k := b] == m[k := b]
  {
  }

  lemma WrapNext(x: u32, i: nat)
    ensures Wrap32(Wrap32(x + i) as int + 1) == Wrap32(x + i + 1)
  {
  }

  lemma RegsAdvance(r: Regs, i: nat)
    requires i < r[ECX]
    ensures var t := r[EDI := Wrap32(r[EDI] + i)][ESI := Wrap32(r[ESI] + i)][ECX := r[ECX] - i];
            t[EDI := Wrap32(t[EDI] as int + 1)][ESI := Wrap32(t[ESI] as int + 1)][ECX := t[ECX] - 1]
            == r[EDI := Wrap32(r[EDI] + i + 1)][ESI := Wrap32(r[ESI] + i + 1)][ECX := r[ECX] - (i + 1)]
  {
    hide Wrap32;
    WrapNext(r[EDI], i);
    WrapNext(r[ESI], i);
  }

  lemma BlockGrows(into: seq<u8>, from: seq<u8>, src: nat, dst: nat, i: nat, period: nat)
    requires dst + i < |into| && src + i < |from|
    ensures SourceOffset(i, period) <= i
    ensures Put(CopiedBlock(into, from, src, dst, i, period), dst + i, from[src + SourceOffset(i, period)])
         == CopiedBlock(into, from, src, dst, i + 1, period)
  {
    Below(i, i + 1, period);
  }

  /** n turns of rep movsb copy n bytes forward. */
  lemma {:induction false} MovsbCopies(c: Cpu, n: nat, i: nat)
    requires i <= n && CanCopy(c, n) && n <= c.regs[ECX]
    ensures Turns(c, Movs(Narrow), false, i) == Done(Copied(c, i))
    decreases i
  {
    hide Turn, CopiedBlock;
    if i == 0 {
      assert Copied(c, 0) == c by {
        NothingCopied(c);
      }
    } else {
      MovsbCopies(c, n, i - 1);
      CopyTurn(c, i - 1, n);
      TurnsCompose(c, Movs(Narrow), false, i - 1, 1);
      var t := Copied(c, i - 1);
      assert Turns(Copied(c, i), Movs(Narrow), false, 0) == Done(Copied(c, i));
      assert Turns(t, Movs(Narrow), false, 1) == Done(Copied(c, i));
    }
  }

  lemma NoBytes(into: seq<u8>, from: seq<u8>, src: nat, dst: nat, period: nat)
    requires dst <= |into| && src <= |from|
    ensures CopiedBlock(into, from, src, dst, 0, period) == into
  {
  }

  lemma SameMem(m: Mem, k: u32)
    requires k in m
    ensures m[k := m[k]] == m
  {
  }

  lemma SameRegs(r: Regs)
    ensures r[EDI := Wrap32(r[EDI] + 0)][ESI := Wrap32(r[ESI] + 0)][ECX := r[ECX] - 0] == r
  {
  }

  lemma NothingCopied(c: Cpu)
    requires CanCopy(c, 0)
    ensures Copied(c, 0) == c
  {
    var into := c.mem[BlockOf(c.regs[EDI])];
    NoBytes(into, c.mem[BlockOf(c.regs[ESI])], Local(c.regs[ESI]), Local(c.regs[EDI]), Period(c));
    SameMem(c.mem, BlockOf(c.regs[EDI]));
    SameRegs(c.regs);
    hide CopiedBlock, Period, BlockOf, Local, Wrap32, InBlock;
  }

  lemma MovsbFunction(p: Fetch.Slot)
    requires p.opcode == 0xA4
    ensures RepFunction(p) == Movs(Narrow) && RepNoFlagOpcode(p.opcode)
  {
  }

  lemma MovsbLoop(hv: Hypervisor, p: Fetch.Slot, s: State, cost: u64)
    requires p.opcode == 0xA4 && !p.sizeOverride && cost > 0
    requires var n := s.cpu.regs[ECX]; CanCopy(s.cpu, n) && (n == 0 || s.gas > (n - 1) * cost)
    ensures var n := s.cpu.regs[ECX];
            RepLoop(hv, p, s, cost, false) ==
              Done(s.(cpu := Copied(s.cpu, n), gas := SatSub(s.gas, Capped(n, cost, s.gas))))
  {
    hide Copied, RepLoop, CanCopy, Affords, Turns, RepFunction, Capped;
    var n := s.cpu.regs[ECX];
    MovsbFunction(p);
    MovsbCopies(s.cpu, n, n);
    var k := AffordsExists(s.gas, cost);
    FinishesIff(n, s.gas, cost, k);
    RepGasBound(hv, p, s, cost, k, false);
  }

  /** rep movsb with enough gas: all ECX bytes are copied as CopiedBlock says,
      ESI and EDI advance by the count, ECX ends 0, nothing else changes. */
  lemma RepMovsb(hv: Hypervisor, p: Fetch.Slot, s: State)
    requires p.op.Repe? && p.opcode == 0xA4 && !p.sizeOverride && Cost(s.costs, Low) > 0
    requires var n := s.cpu.regs[ECX]; CanCopy(s.cpu, n) && (n == 0 || s.gas > (n - 1) * Cost(s.costs, Low))
    ensures var n := s.cpu.regs[ECX];
            Exec(hv, p, s) ==
              Done(s.(cpu := Copied(s.cpu, n), gas := SatSub(s.gas, Capped(n, Cost(s.costs, Low), s.gas))))
  {
    hide Copied, RepLoop, CanCopy, Capped;
    assert RepGas(s.costs, p) == Cost(s.costs, Low);
    MovsbLoop(hv, p, s, Cost(s.costs, Low));
  }

  /** Disjoint ranges, and ranges with the source ahead, are copied unchanged;
      with the destination d ahead of the source the first d bytes repeat. */
  lemma CopiedBytes(c: Cpu, n: nat, k: nat)
    requires CanCopy(c, n) && n <= c.regs[ECX] && k < n
    ensures var t := Copied(c, n);
            var from := c.mem[BlockOf(c.regs[ESI])];
            var src, dst := Local(c.regs[ESI]), Local(c.regs[EDI]);
            var d := c.regs[EDI] as int - c.regs[ESI] as int;
            t.mem[BlockOf(c.regs[EDI])][dst + k] ==
              (if BlockOf(c.regs[ESI]) != BlockOf(c.regs[EDI]) || d <= 0 || d >= n then from[src + k]
               else from[src + k % d])
  {
    var d := Period(c);
    Below(k, n, d);
    if d >= n {
      Arithmetic.SmallMod(k, d);
    }
  }
}

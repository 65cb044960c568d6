// Building the opcode table: definitions are described step by step and written
// into the cells they cover.

module OpcodeTable {
  import opened Words
  import opened Errors
  import opened VMState
  import opened Opcodes

  /** One of the eight opcodes of a byte, and whether it has been defined. */
  datatype Entry = Entry(opcode: Opcode, defined: bool)

  type Entries = s: seq<Entry> | |s| == 8 witness seq(8, i => Entry(UNDEFINED, false))

  /** The table cell of an opcode byte. */
  datatype Cell = Cell(hasModRM: bool, defined: bool, entries: Entries)

  const EMPTY_ENTRY := Entry(UNDEFINED, false)
  const EMPTY_CELL := Cell(false, false, [EMPTY_ENTRY, EMPTY_ENTRY, EMPTY_ENTRY, EMPTY_ENTRY,
                                          EMPTY_ENTRY, EMPTY_ENTRY, EMPTY_ENTRY, EMPTY_ENTRY])

  /** What a builder has been told so far. */
  datatype Definition = Definition(
    opcode: u8, len: nat, twoByte: bool, group: Option<u8>, gas: Option<GasTier>, args: seq<ArgSpec>,
    callee: Option<Op>, jump: Option<PipelineBehavior>, hasModRM: bool, regSuffix: bool)

  function Start(opcode: u8, len: nat): Definition {
    Definition(opcode, len, false, None, None, [], None, None, false, false)
  }

  // ---------- what a definition writes ----------

  /** Sources and sizes from place n on; places without an argument keep their own. */
  function Written(o: Opcode, args: seq<ArgSpec>): Opcode
    requires |args| <= 3
  {
    o.(source := [if |args| > 0 then args[0].0 else o.source[0], if |args| > 1 then args[1].0 else o.source[1],
                  if |args| > 2 then args[2].0 else o.source[2]],
       size := [if |args| > 0 then args[0].1 else o.size[0], if |args| > 1 then args[1].1 else o.size[1],
                if |args| > 2 then args[2].1 else o.size[2]])
  }

  function GasOf(d: Definition): GasTier {
    if d.gas.Some? then d.gas.value else Low
  }

  function BehaviorOf(d: Definition): PipelineBehavior {
    if d.jump.Some? then d.jump.value else Plain
  }

  function WriteEntry(e: Entry, d: Definition): Result<Entry> {
    if e.defined || !Complete(d) then Err(Panicked)
    else Ok(Entry(Written(e.opcode, d.args).(op := d.callee.value, gas := GasOf(d), behavior := BehaviorOf(d)), true))
  }

  /** The entries a definition covers: all eight with Mod R/M, one for a group or otherwise. */
  function GroupStart(d: Definition): nat {
    if d.group.Some? then d.group.value else 0
  }

  function GroupLimit(d: Definition): nat {
    if !d.hasModRM then 1 else if d.group.None? then 8 else d.group.value + 1
  }

  function WriteEntries(c: Cell, d: Definition, inner: nat): Result<Cell>
    decreases GroupLimit(d) - inner
  {
    if inner >= GroupLimit(d) then Ok(c)
    else if inner >= 8 then Err(Panicked)
    else
      var e :- WriteEntry(c.entries[inner], d);
      WriteEntries(c.(entries := c.entries[inner := e]), d, inner + 1)
  }

  function WriteCell(c: Cell, d: Definition): Result<Cell> {
    if c.defined && !c.hasModRM then Err(Panicked)
    else WriteEntries(c.(defined := true, hasModRM := d.hasModRM), d, GroupStart(d))
  }

  function Limit(d: Definition): nat {
    if d.regSuffix then 8 else d.len
  }

  /** The cell of the n-th opcode byte, `(opcode + n) | 0x100` for two-byte opcodes. */
  function Index(d: Definition, n: nat): nat {
    if d.twoByte && d.opcode + n < 0x100 then d.opcode + n + 0x100 else d.opcode + n
  }

  function WriteCells(t: seq<Cell>, d: Definition, n: nat): Result<seq<Cell>>
    decreases Limit(d) - n
  {
    if n >= Limit(d) then Ok(t)
    else if Index(d, n) >= |t| then Err(Panicked)
    else if Index(d, n) == 0x90 && t[0x90].defined then WriteCells(t, d, n + 1)
    else
      var c :- WriteCell(t[Index(d, n)], d);
      WriteCells(t[Index(d, n) := c], d, n + 1)
  }

  function Tabled(t: seq<Cell>, d: Definition): Result<seq<Cell>> {
    if d.len == 0 || (d.regSuffix && d.len > 1) then Err(Panicked) else WriteCells(t, d, 0)
  }

  /** A definition with its defaults written out. */
  function WithDefaults(d: Definition): Definition {
    d.(gas := Some(GasOf(d)), jump := Some(BehaviorOf(d)))
  }

  lemma {:induction false} EntriesWithDefaults(c: Cell, d: Definition, inner: nat)
    ensures WriteEntries(c, WithDefaults(d), inner) == WriteEntries(c, d, inner)
    decreases GroupLimit(d) - inner
  {
    if inner < GroupLimit(d) && inner < 8 {
      var e := WriteEntry(c.entries[inner], d);
      assert WriteEntry(c.entries[inner], WithDefaults(d)) == e;
      if e.Ok? {
        EntriesWithDefaults(c.(entries := c.entries[inner := e.value]), d, inner + 1);
      }
    }
  }

  lemma {:induction false} DefaultsChangeNothing(t: seq<Cell>, d: Definition, n: nat)
    ensures WriteCells(t, WithDefaults(d), n) == WriteCells(t, d, n)
    decreases Limit(d) - n
  {
    hide WriteEntries;
    if n < Limit(d) && Index(d, n) < |t| {
      if Index(d, n) == 0x90 && t[0x90].defined {
        DefaultsChangeNothing(t, d, n + 1);
      } else {
        var c := t[Index(d, n)];
        EntriesWithDefaults(c.(defined := true, hasModRM := d.hasModRM), d, GroupStart(d));
        var w := WriteCell(c, d);
        if w.Ok? {
          DefaultsChangeNothing(t[Index(d, n) := w.value], d, n + 1);
        }
      }
    }
  }

  // ---------- what definitions do to the table ----------

  /** There is a function to call, and no more arguments than places for them. */
  predicate Complete(d: Definition) {
    d.callee.Some? && |d.args| <= 3
  }

  /** The entry a definition leaves where nothing was defined. */
  function NewEntry(d: Definition): Entry
    requires Complete(d)
  {
    Entry(Written(UNDEFINED, d.args).(op := d.callee.value, gas := GasOf(d), behavior := BehaviorOf(d)), true)
  }

  /** Entries not yet defined are as they were at first, and a cell with a
      defined entry is marked as defined. */
  predicate TidyCell(c: Cell) {
    forall k :: 0 <= k < 8 ==>
      (!c.entries[k].defined ==> c.entries[k] == EMPTY_ENTRY) && (c.entries[k].defined ==> c.defined)
  }

  ghost predicate Tidy(t: seq<Cell>) {
    forall i :: 0 <= i < |t| ==> TidyCell(t[i])
  }

  /** A group is selected by the Mod R/M byte, as is_group sees to. */
  predicate Built(d: Definition) {
    d.group.Some? ==> d.hasModRM
  }

  /** Whether a definition reaches entry k of a cell. */
  predicate Reaches(d: Definition, k: nat) {
    GroupStart(d) <= k < GroupLimit(d)
  }

  predicate CanWrite(c: Cell, d: Definition, k: nat) {
    k < 8 && !c.entries[k].defined && Complete(d)
  }

  lemma {:induction false} EntriesWritten(c: Cell, d: Definition, inner: nat)
    requires TidyCell(c) && c.defined
    ensures WriteEntries(c, d, inner).Ok? <==> forall k: nat :: inner <= k < GroupLimit(d) ==> CanWrite(c, d, k)
    ensures var r := WriteEntries(c, d, inner);
            r.Ok? ==>
              && r.value.hasModRM == c.hasModRM && r.value.defined
              && (forall k: nat :: k < 8 && !(inner <= k < GroupLimit(d)) ==> r.value.entries[k] == c.entries[k])
              && (forall k: nat :: k < 8 && inner <= k < GroupLimit(d) ==>
                    CanWrite(c, d, k) && r.value.entries[k] == NewEntry(d))
    decreases GroupLimit(d) - inner
  {
    if inner < GroupLimit(d) {
      if CanWrite(c, d, inner) {
        var e := WriteEntry(c.entries[inner], d).value;
        assert c.entries[inner] == EMPTY_ENTRY && e == NewEntry(d);
        var next := c.(entries := c.entries[inner := e]);
        assert forall k: nat :: k != inner ==> CanWrite(next, d, k) == CanWrite(c, d, k);
        EntriesWritten(next, d, inner + 1);
        assert WriteEntries(c, d, inner) == WriteEntries(next, d, inner + 1);
      }
    }
  }

  /** Writing a cell succeeds exactly when the cell is new or has a Mod R/M byte
      and none of the entries reached has been defined; then these hold the new
      opcode and the others what they held. */
  lemma CellWritten(c: Cell, d: Definition)
    requires TidyCell(c)
    ensures WriteCell(c, d).Ok? <==>
              (!c.defined || c.hasModRM) && forall k: nat :: Reaches(d, k) ==> CanWrite(c, d, k)
    ensures var r := WriteCell(c, d);
            r.Ok? ==>
              && TidyCell(r.value) && r.value.hasModRM == d.hasModRM && r.value.defined
              && (forall k: nat :: k < 8 && !Reaches(d, k) ==> r.value.entries[k] == c.entries[k])
              && (forall k: nat :: k < 8 && Reaches(d, k) ==> CanWrite(c, d, k) && r.value.entries[k] == NewEntry(d))
  {
    var marked := c.(defined := true, hasModRM := d.hasModRM);
    EntriesWritten(marked, d, GroupStart(d));
    assert forall k: nat :: CanWrite(marked, d, k) == CanWrite(c, d, k);
    if (!c.defined || c.hasModRM) && !WriteCell(c, d).Ok? {
      var k: nat :| GroupStart(d) <= k < GroupLimit(d) && !CanWrite(marked, d, k);
      assert Reaches(d, k);
    }
  }

  /** A cell that a definition has written refuses it. */
  lemma WrittenCellRefuses(c: Cell, d: Definition)
    requires Built(d) && TidyCell(c) && WriteCell(c, d).Ok?
    ensures WriteCell(WriteCell(c, d).value, d).Err?
  {
    hide WriteCell;
    CellWritten(c, d);
    CellWritten(WriteCell(c, d).value, d);
    assert Reaches(d, GroupStart(d));
  }

  /** Whether a definition writes cell i from its n-th opcode byte on. */
  ghost predicate WritesFrom(t: seq<Cell>, d: Definition, n: nat, i: nat)
    requires i < |t|
  {
    (exists m: nat :: n <= m < Limit(d) && Index(d, m) == i) && !(i == 0x90 && t[i].defined)
  }

  /** The cells a definition covers, but for a defined 0x90, which it passes over. */
  ghost predicate Writes(t: seq<Cell>, d: Definition, i: nat)
    requires i < |t|
  {
    WritesFrom(t, d, 0, i)
  }

  lemma {:induction false} CellsWritten(t: seq<Cell>, d: Definition, n: nat)
    requires Built(d) && Tidy(t) && WriteCells(t, d, n).Ok?
    ensures var t' := WriteCells(t, d, n).value;
            && |t'| == |t| && Tidy(t')
            && forall i :: 0 <= i < |t| ==>
                 if WritesFrom(t, d, n, i) then WriteCell(t[i], d) == Ok(t'[i]) else t'[i] == t[i]
    decreases Limit(d) - n
  {
    hide WriteCell, TidyCell, Index, Built;
    if n < Limit(d) {
      var at := Index(d, n);
      if at == 0x90 && t[at].defined {
        CellsWritten(t, d, n + 1);
        WritesLater(t, t, d, n);
      } else {
        CellWritten(t[at], d);
        WrittenCellRefuses(t[at], d);
        var u := t[at := WriteCell(t[at], d).value];
        CellsWritten(u, d, n + 1);
        WritesLater(t, u, d, n);
      }
    }
  }

  /** Cells other than the n-th are written from n on exactly when they are from n + 1 on. */
  lemma WritesLater(t: seq<Cell>, u: seq<Cell>, d: Definition, n: nat)
    requires n < Limit(d) && Index(d, n) < |t| && |u| == |t|
    requires forall i :: 0 <= i < |t| && i != Index(d, n) ==> u[i] == t[i]
    ensures forall i :: 0 <= i < |t| && i != Index(d, n) ==> (WritesFrom(t, d, n, i) <==> WritesFrom(u, d, n + 1, i))
    ensures WritesFrom(t, d, n, Index(d, n)) <==> !(Index(d, n) == 0x90 && t[0x90].defined)
    ensures Index(d, n) == 0x90 && u[0x90].defined ==> !WritesFrom(u, d, n + 1, 0x90)
  {
    hide Index;
  }

  /** A definition that is accepted leaves every entry that was defined before as it was. */
  lemma DefinedEntriesStay(t: seq<Cell>, d: Definition, i: nat, k: nat)
    requires Built(d) && Tidy(t) && Tabled(t, d).Ok? && i < |t| && k < 8
    ensures |Tabled(t, d).value| == |t| && Tidy(Tabled(t, d).value)
    ensures t[i].entries[k].defined ==> Tabled(t, d).value[i].entries[k] == t[i].entries[k]
    ensures Writes(t, d, i) && Reaches(d, k) ==> Complete(d) && Tabled(t, d).value[i].entries[k] == NewEntry(d)
    ensures !Writes(t, d, i) ==> Tabled(t, d).value[i] == t[i]
  {
    hide WriteCells, WriteCell, CanWrite;
    CellsWritten(t, d, 0);
    if Writes(t, d, i) {
      CellWritten(t[i], d);
      UndefinedBefore(t[i], d, k);
    }
  }

  lemma UndefinedBefore(c: Cell, d: Definition, k: nat)
    ensures CanWrite(c, d, k) ==> !c.entries[k].defined && Complete(d)
  {
  }

  // ---------- what the decoder finds ----------

  /** The entry the decoder selects by the reg field of a Mod R/M byte. */
  function Found(c: Cell, reg: u3): Entry {
    c.entries[if c.hasModRM then reg else 0]
  }

  /** What decoding found before a definition it still finds after it. */
  ghost predicate StaysFound(c: Cell, c': Cell) {
    forall reg: u3 :: Found(c, reg).defined ==> Found(c', reg) == Found(c, reg)
  }

  /** A table is promised to refuse a second definition of an opcode. It does,
      with one exception: what was found stays found if and only if the cell
      keeps its Mod R/M byte, or had nothing in its groups but the new opcode. */
  lemma ConflictsAreCaughtIff(t: seq<Cell>, d: Definition, i: nat)
    requires Built(d) && Tidy(t) && Tabled(t, d).Ok? && i < |t| == |Tabled(t, d).value| && Writes(t, d, i)
    ensures Complete(d)
    ensures StaysFound(t[i], Tabled(t, d).value[i])
       <==> !t[i].hasModRM || d.hasModRM
            || forall k: u3 :: t[i].entries[k].defined ==> t[i].entries[k] == NewEntry(d)
  {
    hide WriteCells, WriteCell;
    CellsWritten(t, d, 0);
    CellWritten(t[i], d);
    assert Reaches(d, GroupStart(d)) && CanWrite(t[i], d, GroupStart(d));
    var c, c' := t[i], Tabled(t, d).value[i];
    if c.hasModRM && !d.hasModRM {
      assert Reaches(d, 0);
      assert forall reg: u3 :: Found(c', reg) == NewEntry(d);
      assert forall k: u3 :: Found(c, k) == c.entries[k];
    }
  }

  /** A group opcode that a plain definition of the same byte makes unreachable,
      without a complaint. */
  lemma GroupIsShadowed(first: Op, second: Op)
    requires first != second
    ensures var group := Start(0xFF, 1).(group := Some(2), hasModRM := true, callee := Some(first));
            var plain := Start(0xFF, 1).(callee := Some(second));
            var t := seq(OPCODE_TABLE_SIZE, i => EMPTY_CELL);
            && Tabled(t, group).Ok? && |Tabled(t, group).value| == OPCODE_TABLE_SIZE
            && Tabled(Tabled(t, group).value, plain).Ok?
            && |Tabled(Tabled(t, group).value, plain).value| == OPCODE_TABLE_SIZE
            && Found(Tabled(t, group).value[0xFF], 2).opcode.op == first
            && Found(Tabled(Tabled(t, group).value, plain).value[0xFF], 2).opcode.op == second
  {
    var group := Start(0xFF, 1).(group := Some(2), hasModRM := true, callee := Some(first));
    var plain := Start(0xFF, 1).(callee := Some(second));
    var t := seq(OPCODE_TABLE_SIZE, i => EMPTY_CELL);
    OneCell(t, group);
    CellWritten(EMPTY_CELL, group);
    OneCell(Tabled(t, group).value, plain);
    CellWritten(Tabled(t, group).value[0xFF], plain);
    assert Reaches(group, 2) && Reaches(plain, 0);
  }

  lemma OneCell(t: seq<Cell>, d: Definition)
    requires d.len == 1 && !d.regSuffix && Index(d, 0) < |t| && Index(d, 0) != 0x90
    ensures var c := WriteCell(t[Index(d, 0)], d);
            Tabled(t, d) == if c.Ok? then Ok(t[Index(d, 0) := c.value]) else Err(Panicked)
  {
    hide WriteCell;
    var c := WriteCell(t[Index(d, 0)], d);
    if c.Ok? {
      assert WriteCells(t[Index(d, 0) := c.value], d, 1) == Ok(t[Index(d, 0) := c.value]);
    } else {
      assert c.error == Panicked by { OnlyPanics(t[Index(d, 0)], d); }
    }
  }

  lemma OnlyPanics(c: Cell, d: Definition)
    ensures WriteCell(c, d).Err? ==> WriteCell(c, d).error == Panicked
  {
    EntriesOnlyPanic(c.(defined := true, hasModRM := d.hasModRM), d, GroupStart(d));
  }

  lemma {:induction false} EntriesOnlyPanic(c: Cell, d: Definition, inner: nat)
    ensures WriteEntries(c, d, inner).Err? ==> WriteEntries(c, d, inner).error == Panicked
    decreases GroupLimit(d) - inner
  {
    if inner < GroupLimit(d) && inner < 8 {
      var e := WriteEntry(c.entries[inner], d);
      if e.Ok? {
        EntriesOnlyPanic(c.(entries := c.entries[inner := e.value]), d, inner + 1);
      }
    }
  }

  // ---------- the modelled table is one that definitions build ----------

  /** What the decoder sees of a cell. */
  function Row(c: Cell): OpcodeProperties {
    OpcodeProperties(c.hasModRM, [c.entries[0].opcode, c.entries[1].opcode, c.entries[2].opcode, c.entries[3].opcode,
                                  c.entries[4].opcode, c.entries[5].opcode, c.entries[6].opcode, c.entries[7].opcode])
  }

  function ArgsOf(a: ArgSpec, b: ArgSpec): seq<ArgSpec> {
    if a == NOTHING then [] else if b == NOTHING then [a] else [a, b]
  }

  function Told(op: Op, a: ArgSpec, b: ArgSpec, gas: GasTier, behavior: PipelineBehavior, d: Definition): Definition {
    d.(callee := Some(op), args := ArgsOf(a, b), gas := Some(gas), jump := Some(behavior),
       hasModRM := UsesModRM(a.0) || UsesModRM(b.0) || d.group.Some?)
  }

  lemma ToldOpcode(op: Op, a: ArgSpec, b: ArgSpec, gas: GasTier, behavior: PipelineBehavior, d: Definition)
    requires a == NOTHING ==> b == NOTHING
    ensures var told := Told(op, a, b, gas, behavior, d);
            Complete(told) && NewEntry(told).opcode == Define(op, a, b, gas, behavior)
  {
  }

  /** An opcode byte with one definition. */
  lemma WholeIsWritten(op: Op, a: ArgSpec, b: ArgSpec, gas: GasTier, behavior: PipelineBehavior, d: Definition)
    requires d.group.None? && (a == NOTHING ==> b == NOTHING)
    requires var o := Define(op, a, b, gas, behavior); Sane(o, HasModRM(o))
    ensures var c := WriteCell(EMPTY_CELL, Told(op, a, b, gas, behavior, d));
            c.Ok? && Row(c.value) == Whole(Define(op, a, b, gas, behavior))
  {
    hide WriteCell, Sane;
    var told := Told(op, a, b, gas, behavior, d);
    CellWritten(EMPTY_CELL, told);
    ToldOpcode(op, a, b, gas, behavior, d);
    assert forall k: nat :: k < GroupLimit(told) ==> Reaches(told, k);
  }

  /** One more member of a group. */
  lemma GroupGrows(c: Cell, op: Op, a: ArgSpec, b: ArgSpec, gas: GasTier, behavior: PipelineBehavior, d: Definition, g: u3)
    requires TidyCell(c) && (c.defined ==> c.hasModRM) && !c.entries[g].defined
    requires d.group == Some(g as u8) && (a == NOTHING ==> b == NOTHING)
    ensures var r := WriteCell(c, Told(op, a, b, gas, behavior, d));
            && r.Ok? && TidyCell(r.value) && r.value.hasModRM
            && Row(r.value).opcodes == Row(c).opcodes[g := Define(op, a, b, gas, behavior)]
  {
    hide WriteCell, NewEntry, Define, ArgsOf;
    var told := Told(op, a, b, gas, behavior, d);
    CellWritten(c, told);
    ToldOpcode(op, a, b, gas, behavior, d);
    assert forall k: nat :: Reaches(told, k) <==> k == g;
    var r := WriteCell(c, told).value;
    assert forall k: nat :: k < 8 ==> r.entries[k].opcode == if k == g then Define(op, a, b, gas, behavior) else c.entries[k].opcode;
  }

  // ---------- the builder ----------

  class OpcodeDefiner {
    var opcode: u8
    var len: nat
    var twoByte: bool
    var group: Option<u8>
    var gasLevel: Option<GasTier>
    var args: seq<ArgSpec>
    var callee: Option<Op>
    var jump: Option<PipelineBehavior>
    var hasModRM: bool
    var regSuffix: bool

    function Value(): Definition
      reads this
    {
      Definition(opcode, len, twoByte, group, gasLevel, args, callee, jump, hasModRM, regSuffix)
    }

    /** define_opcode_multi; define_opcode has a length of 1. */
    constructor (opcode: u8, len: nat)
      ensures Value() == Start(opcode, len)
    {
      this.opcode, this.len, twoByte, group, gasLevel := opcode, len, false, None, None;
      args, callee, jump, hasModRM, regSuffix := [], None, None, false, false;
    }

    method IsTwoByteOp()
      modifies this
      ensures Value() == old(Value()).(twoByte := true)
    {
      twoByte := true;
    }

    method IsGroup(n: u8)
      modifies this
      ensures Value() == old(Value()).(group := Some(n), hasModRM := true)
    {
      group := Some(n);
      hasModRM := true;
    }

    method Calls(op: Op)
      modifies this
      ensures Value() == old(Value()).(callee := Some(op))
    {
      callee := Some(op);
    }

    method WithArg(source: ArgSource, size: OpcodeValueSize)
      modifies this
      ensures Value() == old(Value()).(args := old(args) + [(source, size)],
                                       hasModRM := old(hasModRM) || UsesModRM(source),
                                       regSuffix := old(regSuffix) || source.RegisterSuffix?)
    {
      hasModRM := hasModRM || UsesModRM(source);
      if source == RegisterSuffix {
        regSuffix := true;
      }
      args := args + [(source, size)];
    }

    /** is_jump, is_unpredictable and is_unpredictable_no_gas */
    method Behaves(behavior: PipelineBehavior)
      modifies this
      ensures Value() == old(Value()).(jump := Some(behavior))
    {
      jump := Some(behavior);
    }

    method WithGas(gas: GasTier)
      modifies this
      ensures Value() == old(Value()).(gas := Some(gas))
    {
      gasLevel := Some(gas);
    }

    /** The inner loop of into_table: the entries of one cell. */
    method FillEntries(cell: Cell) returns (r: Result<Cell>)
      ensures r == WriteEntries(cell, Value(), GroupStart(Value()))
    {
      ghost var d := Value();
      var filled := cell;
      var limit := if hasModRM then (if group.None? then 8 else group.value as int + 1) else 1;
      var inner: nat := if group.Some? then group.value else 0;
      while inner < limit
        invariant WriteEntries(filled, d, inner) == WriteEntries(cell, d, GroupStart(d))
      {
        if inner >= 8 || filled.entries[inner].defined || callee.None? {
          return Err(Panicked);
        }
        var o := filled.entries[inner].opcode;
        var written := o.(op := callee.value, gas := GasOf(Value()), behavior := BehaviorOf(Value()));
        var source, size: seq<OpcodeValueSize> := written.source, written.size;
        for n := 0 to |args|
          invariant n <= 3 && |source| == 3 && |size| == 3
          invariant forall i :: 0 <= i < 3 ==> source[i] == if i < n then args[i].0 else o.source[i]
          invariant forall i :: 0 <= i < 3 ==> size[i] == if i < n then args[i].1 else o.size[i]
        {
          if n >= 3 {
            return Err(Panicked);
          }
          source := source[n := args[n].0];
          size := size[n := args[n].1];
        }
        written := written.(source := source, size := size);
        assert written.source == Written(o, args).source && written.size == Written(o, args).size;
        filled := filled.(entries := filled.entries[inner := Entry(written, true)]);
        inner := inner + 1;
      }
      return Ok(filled);
    }

    method FillCell(cell: Cell) returns (r: Result<Cell>)
      ensures r == WriteCell(cell, Value())
    {
      hide WriteEntries;
      if cell.defined && !cell.hasModRM {
        return Err(Panicked);
      }
      r := FillEntries(cell.(defined := true, hasModRM := hasModRM));
    }

    /** The outer loop of into_table: the cells the definition covers. */
    method FillCells(table: array<Cell>) returns (r: Result<()>)
      modifies table
      ensures var made := WriteCells(old(table[..]), Value(), 0);
              if made.Ok? then r == Ok(()) && table[..] == made.value else r == Err(made.error)
    {
      hide WriteCell;
      ghost var d, before := Value(), table[..];
      var limit := if regSuffix then 8 else len;
      for n := 0 to limit
        invariant WriteCells(table[..], d, n) == WriteCells(before, d, 0)
      {
        var op := opcode as int + n;
        if twoByte && op < 0x100 {
          op := op + 0x100;
        }
        assert op == Index(d, n);
        if op >= table.Length {
          return Err(Panicked);
        }
        ghost var cells := table[..];
        if op == 0x90 && table[op].defined {
          continue;
        }
        var filled :- FillCell(table[op]);
        table[op] := filled;
        assert table[..] == cells[op := filled];
      }
      return Ok(());
    }

    /** into_table: writes the cells in place. */
    method IntoTable(table: array<Cell>) returns (r: Result<()>)
      modifies this, table
      ensures var made := Tabled(old(table[..]), old(Value()));
              if made.Ok? then r == Ok(()) && table[..] == made.value else r == Err(made.error)
    {
      hide WriteCells;
      ghost var d := Value();
      if jump.None? {
        jump := Some(Plain);
      }
      if gasLevel.None? {
        gasLevel := Some(Low);
      }
      assert Value() == WithDefaults(d);
      if len == 0 {
        return Err(Panicked);
      }
      if regSuffix && len > 1 {
        return Err(Panicked);
      }
      DefaultsChangeNothing(table[..], d, 0);
      r := FillCells(table);
    }
  }
}

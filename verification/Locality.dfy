// Which bytes of the instruction window a decoded instruction depends on, and how many it can take.

module Locality {
  import opened Words
  import opened Errors
  import opened Structs
  import VMState
  import opened Opcodes
  import opened Decoding
  import opened Fetch

  /** The same length, and the same first n bytes. */
  predicate SameStart(v: seq<u8>, w: seq<u8>, n: nat) {
    n <= |v| && |v| == |w| && v[..n] == w[..n]
  }

  lemma SameTail(v: seq<u8>, w: seq<u8>, n: nat, k: nat)
    requires SameStart(v, w, n) && k <= n
    ensures SameStart(v[k..], w[k..], n - k)
    ensures forall i :: 0 <= i < n ==> v[i] == w[i]
  {
    assert forall i :: 0 <= i < n ==> v[i] == v[..n][i] && w[i] == w[..n][i];
    assert v[k..][..n - k] == v[..n][k..] && w[k..][..n - k] == w[..n][k..];
  }

  lemma ShorterStart(v: seq<u8>, w: seq<u8>, n: nat, k: nat)
    requires SameStart(v, w, n) && k <= n
    ensures SameStart(v, w, k)
  {
    assert v[..k] == v[..n][..k] && w[..k] == w[..n][..k];
  }

  lemma StartFits(v: seq<u8>, w: seq<u8>, n: nat)
    requires SameStart(v, w, n)
    ensures n <= |v| && |v| == |w|
  {
  }

  // ---------- locality ----------

  /** Scanning looks at the prefixes and at the byte after them. */
  lemma {:induction false} ScanIsLocal(p: Prefixes, v: seq<u8>, w: seq<u8>, size: nat)
    requires ScanPrefixes(p, v, size).Ok?
    requires var n := ScanPrefixes(p, v, size).value.1 - size; n < |v| && SameStart(v, w, n + 1)
    ensures ScanPrefixes(p, w, size) == ScanPrefixes(p, v, size)
    decreases |v|
  {
    var n := ScanPrefixes(p, v, size).value.1 - size;
    SameTail(v, w, n + 1, 0);
    if v[0] == 0x66 || v[0] == 0xF2 || v[0] == 0xF3 {
      var q := if v[0] == 0x66 then p.(sizeOverride := true)
               else if v[0] == 0xF2 then p.(rep := RepNotEqual) else p.(rep := RepEqual);
      SameTail(v, w, n + 1, 1);
      ScanIsLocal(q, v[1..], w[1..], size + 1);
    }
  }

  lemma FromBytesIsLocal(v: seq<u8>, w: seq<u8>)
    requires FromBytes(v).Ok? && SameStart(v, w, FromBytes(v).value.size + 1)
    ensures FromBytes(w) == FromBytes(v)
  {
    var n := FromBytes(v).value.size + 1;
    SameTail(v, w, n, 0);
    var modrm := ParseModRM(v[1]);
    var at := if modrm.mode != 3 && modrm.rm == 4 then 3 else 2;
    SameTail(v, w, n, at);
    if n == at + 4 {
      assert v[at..][..4] == v[..n][at..] && w[at..][..4] == w[..n][at..];
    }
  }

  lemma ImmediateIsLocal(size: ValueSize, v: seq<u8>, w: seq<u8>)
    requires DecodeImmediate(size, v).Ok? && SameStart(v, w, DecodeImmediate(size, v).value.1)
    ensures DecodeImmediate(size, w) == DecodeImmediate(size, v)
  {
    SameTail(v, w, DecodeImmediate(size, v).value.1, 0);
  }

  lemma ArgIsLocal(source: ArgSource, size: ValueSize, opcode: u8, v: seq<u8>, w: seq<u8>, m: ParsedModRM)
    requires DecodeArg(source, size, opcode, v, m).Ok?
    requires SameStart(v, w, DecodeArg(source, size, opcode, v, m).value.1)
    ensures DecodeArg(source, size, opcode, w, m) == DecodeArg(source, size, opcode, v, m)
  {
    hide DecodeImmediate, DecodeModRM;
    if source.ImmediateValue? || source.JumpRel? {
      ImmediateIsLocal(size, v, w);
    }
  }

  lemma {:induction false} ArgsAreLocal(o: Opcode, n: nat, opcode: u8, v: seq<u8>, w: seq<u8>, size: nat, args: Args,
                                        sizeOverride: bool, m: ParsedModRM)
    requires n <= 3 && DecodeArgsFrom(o, n, opcode, v, size, args, sizeOverride, m).Ok?
    requires SameStart(v, w, DecodeArgsFrom(o, n, opcode, v, size, args, sizeOverride, m).value.1 - size)
    ensures DecodeArgsFrom(o, n, opcode, w, size, args, sizeOverride, m)
         == DecodeArgsFrom(o, n, opcode, v, size, args, sizeOverride, m)
    decreases 3 - n
  {
    hide DecodeArg, SameStart;
    if n < 3 {
      var used := DecodeArgsFrom(o, n, opcode, v, size, args, sizeOverride, m).value.1 - size;
      var fixed := o.size[n].ToFixed(sizeOverride);
      var (arg, k) := DecodeArg(o.source[n], fixed, opcode, v, m).value;
      StartFits(v, w, used);
      ShorterStart(v, w, used, k);
      ArgIsLocal(o.source[n], fixed, opcode, v, w, m);
      SameTail(v, w, used, k);
      ArgsAreLocal(o, n + 1, opcode, v[k..], w[k..], size + k, args[n := arg], sizeOverride, m);
    }
  }

  lemma AllArgsAreLocal(o: Opcode, v: seq<u8>, w: seq<u8>, args: Args, sizeOverride: bool, parsed: Option<ParsedModRM>)
    requires DecodeArgs(o, v, args, sizeOverride, parsed).Ok?
    requires SameStart(v, w, DecodeArgs(o, v, args, sizeOverride, parsed).value.1)
    ensures DecodeArgs(o, w, args, sizeOverride, parsed) == DecodeArgs(o, v, args, sizeOverride, parsed)
  {
    hide DecodeArgsFrom;
    var m := if parsed.Some? then parsed.value else DEFAULT_MODRM;
    var n := DecodeArgs(o, v, args, sizeOverride, parsed).value.1;
    SameTail(v, w, n, 1 + m.size);
    ArgsAreLocal(o, 0, v[0], v[1 + m.size..], w[1 + m.size..], 1 + m.size, args, sizeOverride, m);
  }

  lemma FieldsAreLocal(table: Table, p: Prefixes, size: nat, v: seq<u8>, w: seq<u8>, prev: Args)
    requires v != [] && size + |v| == 16 && ReadFields(table, p, size, v, prev).Ok?
    requires SameStart(v, w, ReadFields(table, p, size, v, prev).value.size - size)
    ensures ReadFields(table, p, size, w, prev) == ReadFields(table, p, size, v, prev)
  {
    hide FromBytes, DecodeArgs;
    var n := ReadFields(table, p, size, v, prev).value.size - size;
    SameTail(v, w, n, 0);
    var index := v[0] as int + if p.twoBytes then 0x100 else 0;
    var prop := table(index);
    if prop.hasModRM {
      var parsed := FromBytes(v).value;
      assert parsed.size + 1 <= n by {
        LengthCoversModRM(prop.opcodes[parsed.modrm.reg], v, prev, p.sizeOverride, parsed);
      }
      assert v[..parsed.size + 1] == v[..n][..parsed.size + 1] && w[..parsed.size + 1] == w[..n][..parsed.size + 1];
      FromBytesIsLocal(v, w);
      AllArgsAreLocal(prop.opcodes[parsed.modrm.reg], v, w, prev, p.sizeOverride, Some(parsed));
    } else {
      AllArgsAreLocal(prop.opcodes[0], v, w, prev, p.sizeOverride, None);
    }
  }

  lemma LengthCoversModRM(o: Opcode, v: seq<u8>, args: Args, sizeOverride: bool, parsed: ParsedModRM)
    requires DecodeArgs(o, v, args, sizeOverride, Some(parsed)).Ok?
    ensures DecodeArgs(o, v, args, sizeOverride, Some(parsed)).value.1 >= parsed.size + 1
  {
  }

  lemma FieldsKeepSize(s: VMState.State, f: Fields, eip: u32, w: bool)
    requires DecodeFields(s, f, eip, w).Ok?
    ensures DecodeFields(s, f, eip, w).value.slot.eipSize == f.size
  {
    hide FieldsGas, VMState.GetArg;
  }

  /** A successful decode depends on the first eip_size bytes of the window only. */
  lemma DecodeIsLocal(table: Table, s: VMState.State, v: seq<u8>, w: seq<u8>, eip: u32, writeable: bool, prev: Slot)
    requires |v| == 16 && DecodeWindow(table, s, v, eip, writeable, prev).Ok?
    requires SameStart(v, w, DecodeWindow(table, s, v, eip, writeable, prev).value.slot.eipSize)
    ensures DecodeWindow(table, s, w, eip, writeable, prev) == DecodeWindow(table, s, v, eip, writeable, prev)
  {
    hide ReadFields, DecodeFields, ScanPrefixes;
    var n := DecodeWindow(table, s, v, eip, writeable, prev).value.slot.eipSize;
    var (p, size) := ScanPrefixes(NO_PREFIXES, v, 0).value;
    SameTail(v, w, n, 0);
    if p.rep == NoRep {
      var f := ReadFields(table, p, size, v[size..], prev.args).value;
      FieldsKeepSize(s, f, eip, writeable);
      assert n > size by { FieldsCoverOpcode(table, p, size, v[size..], prev.args); }
      assert v[..size + 1] == v[..n][..size + 1] && w[..size + 1] == w[..n][..size + 1];
      ScanIsLocal(NO_PREFIXES, v, w, 0);
      SameTail(v, w, n, size);
      FieldsAreLocal(table, p, size, v[size..], w[size..], prev.args);
    } else {
      ScanIsLocal(NO_PREFIXES, v, w, 0);
    }
  }

  lemma FieldsCoverOpcode(table: Table, p: Prefixes, size: nat, buffer: seq<u8>, prev: Args)
    requires buffer != [] && size + |buffer| == 16 && ReadFields(table, p, size, buffer, prev).Ok?
    ensures ReadFields(table, p, size, buffer, prev).value.size > size
  {
    hide FromBytes, DecodeArgsFrom;
  }

  // ---------- length ----------

  /** Operands whose bytes are there decode, and take no more than the table allows. */
  lemma {:induction false} ArgsFit(o: Opcode, n: nat, opcode: u8, bytes: seq<u8>, size: nat, args: Args,
                                   sizeOverride: bool, m: ParsedModRM)
    requires n <= 3 && |bytes| >= ArgBytesFrom(o, n)
    ensures var r := DecodeArgsFrom(o, n, opcode, bytes, size, args, sizeOverride, m);
            r.Ok? && r.value.1 <= size + ArgBytesFrom(o, n)
    decreases 3 - n
  {
    if n < 3 {
      var fixed := o.size[n].ToFixed(sizeOverride);
      ArgFits(o.source[n], o.size[n], opcode, bytes, sizeOverride, m);
      var (arg, k) := DecodeArg(o.source[n], fixed, opcode, bytes, m).value;
      hide DecodeArg, ArgBytes;
      ArgsFit(o, n + 1, opcode, bytes[k..], size + k, args[n := arg], sizeOverride, m);
    }
  }

  function ArgBytesFrom(o: Opcode, n: nat): nat
    requires n <= 3
    decreases 3 - n, o
  {
    if n == 3 then 0 else ArgBytes(o.source[n], o.size[n]) + ArgBytesFrom(o, n + 1)
  }

  lemma ArgFits(source: ArgSource, size: OpcodeValueSize, opcode: u8, bytes: seq<u8>, sizeOverride: bool, m: ParsedModRM)
    requires |bytes| >= ArgBytes(source, size)
    ensures var r := DecodeArg(source, size.ToFixed(sizeOverride), opcode, bytes, m);
            r.Ok? && r.value.1 <= ArgBytes(source, size)
  {
    hide DecodeModRM;
  }

  lemma ParseFits(buffer: seq<u8>)
    requires |buffer| >= 7
    ensures FromBytes(buffer).Ok?
  {
  }

  /** With at most five prefix bytes, the operands of every opcode in a sane table
      are inside the window, and the instruction is at most 16 bytes long. */
  lemma FivePrefixesFit(table: Table, p: Prefixes, size: nat, buffer: seq<u8>, prev: Args)
    requires SaneTable(table) && buffer != [] && size + |buffer| == 16 && size <= 5
    requires buffer[0] as int + (if p.twoBytes then 0x100 else 0) < OPCODE_TABLE_SIZE
    ensures var f := ReadFields(table, p, size, buffer, prev); f.Ok? && f.value.size <= 16 && f.value.size <= size + 11
  {
    hide FromBytes, DecodeArgsFrom, Sane;
    var index := buffer[0] as int + if p.twoBytes then 0x100 else 0;
    var prop := table(index);
    assert SaneRow(prop);
    ParseFits(buffer);
    var parsed := if prop.hasModRM then Some(FromBytes(buffer).value) else None;
    var m := if parsed.Some? then parsed.value else DEFAULT_MODRM;
    var o := if prop.hasModRM then prop.opcodes[m.modrm.reg] else prop.opcodes[0];
    SaneArgsFit(o, prop.hasModRM);
    ArgsFit(o, 0, buffer[0], buffer[1 + m.size..], 1 + m.size, prev, p.sizeOverride, m);
  }

  lemma SaneArgsFit(o: Opcode, hasModRM: bool)
    requires Sane(o, hasModRM)
    ensures ArgBytesFrom(o, 0) <= 4
  {
    hide ArgBytes;
    assert ArgBytesFrom(o, 1) == ArgBytes(o.source[1], o.size[1]) + ArgBytesFrom(o, 2);
    assert ArgBytesFrom(o, 2) == ArgBytes(o.source[2], o.size[2]) + ArgBytesFrom(o, 3);
  }
}

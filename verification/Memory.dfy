// The block memory: 64K-aligned addresses mapped to byte buffers.

module Memory {
  import opened Words
  import opened Errors
  import opened Structs

  type Mem = map<u32, seq<u8>>

  function BlockOf(a: u32): u32 {
    a - a % 0x1_0000
  }

  function Local(a: u32): u16 {
    a % 0x1_0000
  }

  /** get_memory: the bytes from `a` to the end of its block. An empty block
      makes `len - 1` wrap, so the comparison lets every offset through. */
  function Tail(m: Mem, a: u32): Result<seq<u8>> {
    if BlockOf(a) !in m then Err(ReadUnloadedMemory(a))
    else
      var block := m[BlockOf(a)];
      if block == [] then if Local(a) == 0 then Ok([]) else Err(Panicked)
      else if |block| - 1 < Local(a) then Err(ReadBadMemory(a))
      else Ok(block[Local(a)..])
  }

  /** get_sized_memory */
  function Read(m: Mem, a: u32, n: u32): (r: Result<seq<u8>>)
    ensures r.Ok? ==> |r.value| == n
    ensures r.Err? ==> r.error.Ordinary()
  {
    var t :- Tail(m, a);
    if |t| < n then Err(ReadBadMemory(Wrap32(a + n - 1))) else Ok(t[..n])
  }

  /** A block with `bytes` copied over its own from `lo` on. */
  function Overwrite(block: seq<u8>, lo: nat, bytes: seq<u8>): seq<u8>
    requires lo + |bytes| <= |block|
  {
    block[..lo] + bytes + block[lo + |bytes|..]
  }

  /** get_mut_sized_memory followed by copy_from_slice */
  function Write(m: Mem, a: u32, bytes: seq<u8>): (r: Result<Mem>)
    requires |bytes| < 0x1_0000_0000
    ensures r.Err? ==> r.error.Ordinary()
  {
    if BlockOf(a) !in m then Err(ReadUnloadedMemory(a))
    else
      var block := m[BlockOf(a)];
      var lo := Local(a);
      if block == [] && lo != 0 then Err(Panicked)
      else if block != [] && |block| - 1 < lo then Err(WroteBadMemory(a))
      else if |block| - lo < |bytes| then Err(WroteBadMemory(Wrap32(a + |bytes| - 1)))
      else Ok(m[BlockOf(a) := Overwrite(block, lo, bytes)])
  }

  function GetMem(m: Mem, a: u32, size: ValueSize): (r: Result<SizedValue>)
    ensures r.Err? ==> r.error.Ordinary()
  {
    match size
    case SizeNone => Ok(NoValue)
    case SizeByte => var b :- Read(m, a, 1); Ok(Byte(b[0]))
    case SizeWord => var b :- Read(m, a, 2); Ok(Word(Le16(b)))
    case SizeDword => var b :- Read(m, a, 4); Ok(Dword(Le32(b)))
    case SizeQword => var b :- Read(m, a, 8); Ok(Qword(Le64(b)))
  }

  function ValueBytes(v: SizedValue): seq<u8> {
    match v
    case NoValue => []
    case Byte(b) => [b]
    case Word(w) => Bytes16(w)
    case Dword(d) => Bytes32(d)
    case Qword(q) => Bytes64(q)
  }

  function SetMem(m: Mem, a: u32, v: SizedValue): (r: Result<Mem>)
    ensures r.Err? ==> r.error.Ordinary()
  {
    if a < WRITEABLE_MEMORY then Err(WroteReadOnlyMemory(a))
    else if v.NoValue? then Ok(m)
    else Write(m, a, ValueBytes(v))
  }

  /** What no instruction may change: the blocks below 0x80000000, which blocks
      exist, and how long each of them is. */
  ghost predicate Preserves(m: Mem, n: Mem) {
    && m.Keys == n.Keys
    && (forall k :: k in m ==> |n[k]| == |m[k]|)
    && (forall k :: k in m && k < WRITEABLE_MEMORY ==> n[k] == m[k])
  }

  /** Fetching below 0x80000000 sees only what is preserved. */
  lemma LowReadsAgree(m: Mem, n: Mem, a: u32, len: u32)
    requires Preserves(m, n) && a < WRITEABLE_MEMORY
    ensures Read(m, a, len) == Read(n, a, len)
  {
  }

  /** The HashMap of buffers that the VM owns. */
  class MemorySystem {
    var blocks: Mem

    constructor ()
      ensures blocks == map[]
    {
      blocks := map[];
    }

    /** Adds a zeroed block whose first byte is 10. A size of zero indexes an
        empty buffer after it has been inserted. */
    method AddMemory(address: u32, size: u32) returns (r: Result<()>)
      modifies this
      ensures address % 0x1_0000 != 0 ==> r == Err(UnalignedMemoryAddition) && blocks == old(blocks)
      ensures address % 0x1_0000 == 0 && address in old(blocks) ==>
                r == Err(ConflictingMemoryAddition) && blocks == old(blocks)
      ensures address % 0x1_0000 == 0 && address !in old(blocks) ==>
                && (r.Ok? <==> size != 0)
                && blocks.Keys == old(blocks).Keys + {address}
                && (forall k :: k in old(blocks) ==> blocks[k] == old(blocks)[k])
                && |blocks[address]| == size
                && (forall i :: 0 <= i < size ==> blocks[address][i] == if i == 0 then 10 else 0)
    {
      if address % 0x1_0000 != 0 {
        return Err(UnalignedMemoryAddition);
      }
      if address in blocks {
        return Err(ConflictingMemoryAddition);
      }
      var buffer: seq<u8> := seq(size, i => 0);
      blocks := blocks[address := buffer];
      if size == 0 {
        return Err(Panicked);
      }
      blocks := blocks[address := buffer[0 := 10]];
      return Ok(());
    }

    /** get_mut_sized_memory with the copy that every caller makes into the slice. */
    method SetBytes(address: u32, bytes: seq<u8>) returns (r: Result<()>)
      requires |bytes| < 0x1_0000_0000
      modifies this
      ensures var w := Write(old(blocks), address, bytes);
              if w.Ok? then r == Ok(()) && blocks == w.value else r == Err(w.error) && blocks == old(blocks)
    {
      hide Overwrite;
      var key := BlockOf(address);
      if key !in blocks {
        return Err(ReadUnloadedMemory(address));
      }
      var block, lo := blocks[key], Local(address);
      if block == [] && lo != 0 {
        return Err(Panicked);
      }
      if block != [] && |block| - 1 < lo {
        return Err(WroteBadMemory(address));
      }
      if |block| - lo < |bytes| {
        return Err(WroteBadMemory(Wrap32(address + |bytes| - 1)));
      }
      blocks := blocks[key := Overwrite(block, lo, bytes)];
      return Ok(());
    }
  }
}

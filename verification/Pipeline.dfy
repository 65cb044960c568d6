// Filling the pipeline with decoded instructions and running what was filled,
// for any decoder and any meaning of the opcode functions.

module Pipeline {
  import opened Words
  import opened Errors
  import opened VMState
  import opened Opcodes
  import opened Fetch

  /** How instructions are decoded, and what the opcode functions do. */
  datatype Machine = Machine(
    decode: (State, u32, bool, Slot) -> Result<Decoded>,
    exec: (Slot, State) -> Effect<State, State>)

  predicate InWriteable(eip: u32) {
    eip >= WRITEABLE_MEMORY
  }

  /** clear_pipeline assigns the default to cell 0, once for every cell. */
  function Cleared(prev: seq<Slot>): seq<Slot> {
    if prev == [] then [] else prev[0 := DEFAULT_SLOT]
  }

  function Padding(prev: Slot): Slot {
    prev.(op := Nop, eipSize := 0, gasCost := 0)
  }

  /** The loop of fill_pipeline over the cells that are left. */
  function FillFrom(m: Machine, s: State, eip: u32, gas: u64, stop: bool, writeable: bool, prev: seq<Slot>)
    : (r: Result<seq<Slot>>)
    ensures r.Ok? ==> |r.value| == |prev|
    decreases prev
  {
    if prev == [] then Ok([])
    else if stop then
      var rest :- FillFrom(m, s, eip, gas, true, writeable, prev[1..]);
      Ok([Padding(prev[0])] + rest)
    else
      var d :- m.decode(s, eip, writeable, prev[0]);
      var left := SatSub(gas, d.slot.gasCost);
      var rest :- FillFrom(m, s, d.next, left, d.stop || left == 0, writeable, prev[1..]);
      Ok([d.slot] + rest)
  }

  function Fill(m: Machine, s: State, prev: seq<Slot>): (r: Result<seq<Slot>>)
    ensures r.Ok? ==> |r.value| == |prev|
  {
    FillFrom(m, s, s.cpu.eip, s.gas, false, InWriteable(s.cpu.eip), Cleared(prev))
  }

  datatype Outcome = Continue(st: State) | Halted(st: State) | Failed(st: State, error: VMError)

  /** Charging and running one slot, then advancing eip by its size. */
  function RunSlot(m: Machine, p: Slot, s: State): Outcome {
    var charged := s.(gas := SatSub(s.gas, p.gasCost));
    if s.gas < p.gasCost then Failed(charged, OutOfGas)
    else match m.exec(p, charged)
      case Done(t) => Continue(t.Advance(p.eipSize))
      case Raised(t, e) => if e == InternalVMStop then Halted(t) else Failed(t.(errorEip := t.cpu.eip), e)
  }

  /** The second loop of cycle. */
  function RunSlots(m: Machine, slots: seq<Slot>, s: State): Outcome
    decreases slots
  {
    if slots == [] then Continue(s)
    else
      var r := RunSlot(m, slots[0], s);
      if r.Continue? then RunSlots(m, slots[1..], r.st) else r
  }

  /** One call of cycle on an array that holds `prev`. */
  function Cycle(m: Machine, prev: seq<Slot>, s: State): Outcome {
    match Fill(m, s, prev)
    case Err(e) => Failed(s, e)
    case Ok(slots) => RunSlots(m, slots, s)
  }

  /** `n` turns of the loop in execute; the array keeps its cells between turns. */
  function Cycles(m: Machine, prev: seq<Slot>, s: State, n: nat): Outcome
    decreases n
  {
    if n == 0 then Continue(s)
    else
      var r := Cycle(m, prev, s);
      if r.Continue? then Cycles(m, Fill(m, s, prev).value, r.st, n - 1) else r
  }

  /** A new pipeline of n cells. */
  function NewPipeline(n: nat): (slots: seq<Slot>)
    ensures |slots| == n
  {
    seq(n, i => DEFAULT_SLOT)
  }

  // The reference machine: fetch, decode and run one instruction at a time.

  function Step(m: Machine, s: State): Outcome {
    match m.decode(s, s.cpu.eip, InWriteable(s.cpu.eip), DEFAULT_SLOT)
    case Err(e) => Failed(s, e)
    case Ok(d) => RunSlot(m, d.slot, s)
  }

  function Steps(m: Machine, s: State, n: nat): Outcome
    decreases n
  {
    if n == 0 then Continue(s)
    else
      var r := Step(m, s);
      if r.Continue? then Steps(m, r.st, n - 1) else r
  }
}

// Values of a definite size and the places an operand can live in.

module Structs {
  import opened Words
  import opened Errors

  datatype ValueSize = SizeNone | SizeByte | SizeWord | SizeDword | SizeQword

  datatype SizedValue = NoValue | Byte(b: u8) | Word(w: u16) | Dword(d: u32) | Qword(q: u64) {

    function U32Exact(): Result<u32> {
      if Dword? then Ok(d) else Err(WrongSizeExpectation)
    }

    function U16Exact(): Result<u16> {
      if Word? then Ok(w) else Err(WrongSizeExpectation)
    }

    function U8Exact(): Result<u8> {
      if Byte? then Ok(b) else Err(WrongSizeExpectation)
    }

    function U32Zx(): Result<u32> {
      match this
      case Dword(v) => Ok(v)
      case Word(v) => Ok(v)
      case Byte(v) => Ok(v)
      case Qword(_) => Err(TooBigSizeExpectation)
      case NoValue => Ok(0)
    }

    function U16Zx(): Result<u16> {
      match this
      case Word(v) => Ok(v)
      case Byte(v) => Ok(v)
      case NoValue => Ok(0)
      case Dword(_) => Err(TooBigSizeExpectation)
      case Qword(_) => Err(TooBigSizeExpectation)
    }

    function U32Sx(): Result<u32> {
      match this
      case Dword(v) => Ok(v)
      case Word(v) => Ok(Sx16To32(v))
      case Byte(v) => Ok(Sx8To32(v))
      case NoValue => Ok(0)
      case Qword(_) => Err(TooBigSizeExpectation)
    }

    function U16Sx(): Result<u16> {
      match this
      case Word(v) => Ok(v)
      case Byte(v) => Ok(Sx8To16(v))
      case NoValue => Ok(0)
      case Dword(_) => Err(TooBigSizeExpectation)
      case Qword(_) => Err(TooBigSizeExpectation)
    }

    /** The unsigned number held, 0 when there is none. */
    function Number(): u64 {
      match this
      case Dword(v) => v
      case Qword(v) => v
      case Word(v) => v
      case Byte(v) => v
      case NoValue => 0
    }

    function ConvertSizeZx(s: ValueSize): Result<SizedValue> {
      match s
      case SizeDword => var v :- U32Zx(); Ok(Dword(v))
      case SizeWord => var v :- U16Zx(); Ok(Word(v))
      case SizeByte => var v :- U8Exact(); Ok(Byte(v))
      case SizeNone => Err(WrongSizeExpectation)
      case SizeQword => Err(TooBigSizeExpectation)
    }

    function ConvertSizeTrunc(s: ValueSize): SizedValue {
      match s
      case SizeQword => Qword(Number())
      case SizeDword => Dword(Number() % 0x1_0000_0000)
      case SizeWord => Word(Number() % 0x1_0000)
      case SizeByte => Byte(Number() % 0x100)
      case SizeNone => NoValue
    }
  }

  /** Where an operand lives. Register numbers come from three-bit fields. */
  datatype ArgLocation =
    | NoArg
    | Immediate(v: SizedValue)
    | Address(address: u32, size: ValueSize)
    | RegisterValue(r: u3, size: ValueSize)
    | RegisterAddress(r: u3, size: ValueSize)
    | ModRMAddress(offset: Option<u32>, reg: Option<u3>, size: ValueSize)
    | SIBAddress(disp: u32, base: Option<u3>, scale: u8, index: Option<u3>, size: ValueSize)

  datatype OpArgument = OpArgument(location: ArgLocation, isMemory: bool)

  const NO_ARGUMENT := OpArgument(NoArg, false)

  /** [OpArgument; 3] */
  type Args = a: seq<OpArgument> | |a| == 3
    witness [OpArgument(NoArg, false), OpArgument(NoArg, false), OpArgument(NoArg, false)]

  const NO_ARGS: Args := [NO_ARGUMENT, NO_ARGUMENT, NO_ARGUMENT]
}

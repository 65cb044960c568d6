// The error enumeration of the VM and the result types that carry it.

module Errors {
  import Words

  datatype Option<+T> = None | Some(value: T)

  /** VMError. `Panicked` is added for the places where the host program panics
      instead of returning an error (a slice index out of range, unimplemented!). */
  datatype VMError =
    | DivideByZero
    | ReadBadMemory(address: Words.u32)
    | WroteBadMemory(address: Words.u32)
    | WroteReadOnlyMemory(address: Words.u32)
    | ReadUnloadedMemory(address: Words.u32)
    | UnalignedMemoryAddition
    | ConflictingMemoryAddition
    | InvalidOpcode(opcode: Words.u8)
    | WroteUnwriteableArgument
    | DecodingOverrun
    | WrongSizeExpectation
    | TooBigSizeExpectation
    | InternalVMStop
    | SyscallError
    | OutOfGas
    | InvalidOpcodeEncoding
    | Panicked
  {
    /** Neither the escape that stops the VM nor the end of the gas. */
    predicate Ordinary() {
      this != InternalVMStop && this != OutOfGas
    }
  }

  datatype Result<+T> = Ok(value: T) | Err(error: VMError) {
    predicate IsFailure() {
      Err?
    }

    function PropagateFailure<U>(): Result<U>
      requires Err?
    {
      Err(error)
    }

    function Extract(): T
      requires Ok?
    {
      value
    }
  }
}

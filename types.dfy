/** Machine-level types and the failure type shared by the whole model. */
module Types {

  /** An unsigned 8-bit octet (Rust `u8`). */
  type byte = bv8

  /** A UTF-16 code unit (Rust `u16`, Windows `WCHAR`). */
  type u16 = x: int | 0 <= x < 0x1_0000

  /** A 32-bit unsigned integer (Rust `u32`, Windows `ULONG`). */
  type u32 = x: int | 0 <= x < 0x1_0000_0000

  datatype Option<+T> = None | Some(value: T)

  /** Every way in which the modelled code aborts. Each one is a panic in the
      source, so it ends the whole enumeration: no partial result survives it. */
  datatype Panic =
    | QueryFailed(code: u32)    // the second GetAdaptersAddresses call did not return NO_ERROR
    | NullWideString            // pwchar_to_string was handed a null pointer
    | InvalidWideString         // the UTF-16 text did not decode
    | UnparsableAddress         // `parse().unwrap()` on an address string failed
    | NoMatchingPrefix          // `calculate_subnet_info(..).unwrap()` found no prefix length

  /** A value, or the panic that stopped the computation. */
  datatype Result<+T> = Ok(value: T) | Err(panic: Panic) {
    predicate IsFailure() { Err? }

    function PropagateFailure<U>(): Result<U>
      requires Err?
    {
      Err(panic)
    }

    function Extract(): T
      requires Ok?
    {
      value
    }
  }
}

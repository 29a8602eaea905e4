/** Shared datatypes and the widths of the source's machine integers. */
module Prelude {

  datatype Option<+T> = None | Some(value: T) {

    predicate IsFailure() {
      None?
    }

    function PropagateFailure<U>(): Option<U>
      requires None?
    {
      None
    }

    function Extract(): T
      requires Some?
    {
      value
    }
  }

  datatype Result<+T, +E> = Ok(value: T) | Err(error: E)

  /** How a computation with overflow checks ends: with its value, or in a panic. */
  datatype Ran<+T> = Returned(value: T) | Panicked

  const U32_MAX: nat := 0xFFFF_FFFF
  const U64_MAX: nat := 0xFFFF_FFFF_FFFF_FFFF

  /** Rust's `checked_mul` on `u64`. */
  function CheckedMul(a: nat, b: nat): (r: Option<nat>)
  {
    if a * b <= U64_MAX then Some(a * b) else None
  }

  /** Rust's `checked_add` on `u64`. */
  function CheckedAdd(a: nat, b: nat): (r: Option<nat>)
  {
    if a + b <= U64_MAX then Some(a + b) else None
  }

  /** Rust's `saturating_add(1)` on `u64`. */
  function SaturatingSucc(a: nat): (r: nat)
  {
    if a < U64_MAX then a + 1 else U64_MAX
  }
}

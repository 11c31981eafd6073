module Wrappers {
  datatype Option<+T> = None | Some(value: T)

  datatype Result<+T, +E> = Ok(value: T) | Err(error: E)
}

module Naturals {
  function SaturatingSub(a: nat, b: nat): nat {
    if a >= b then a - b else 0
  }

  function Min(a: nat, b: nat): nat { if a <= b then a else b }

  function Max(a: nat, b: nat): nat { if a >= b then a else b }
}

/** Heights, hashes and instants, as plain numbers. */
module Basics {
  type Height = nat
  type CryptoHash = nat
  type Instant = nat
  const DEFAULT_HASH: CryptoHash := 0
}

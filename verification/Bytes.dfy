/** Failure-carrying results used across the model. */
module Wrappers {
  datatype Option<+T> = None | Some(value: T)

  datatype Result<+T, +E> = Ok(value: T) | Err(error: E)
}

/** Bytes, machine-width limits and the handful of ASCII codes RESP gives a meaning to. */
module Bytes {
  type Byte = x: int | 0 <= x < 256

  type ByteString = seq<Byte>

  const CR: Byte := 13
  const LF: Byte := 10
  const PLUS: Byte := 43
  const MINUS: Byte := 45
  const STAR: Byte := 42
  const DOLLAR: Byte := 36
  const COLON: Byte := 58
  const ZERO: Byte := 48
  const NINE: Byte := 57

  const CRLF: ByteString := [CR, LF]

  /** Largest `u64`, which is also the largest `usize` on the 64-bit targets the server runs on. */
  const U64_MAX: nat := 0xFFFF_FFFF_FFFF_FFFF
  const I64_MAX: nat := 0x7FFF_FFFF_FFFF_FFFF

  /** A millisecond count: an absolute UNIX deadline, a clock reading, or a duration. */
  type Millis = x: nat | x <= U64_MAX

  /** `to_ascii_lowercase` on one byte. */
  function LowerByte(b: Byte): Byte {
    if 65 <= b <= 90 then b + 32 else b
  }

  function Lower(s: ByteString): ByteString {
    seq(|s|, i requires 0 <= i < |s| => LowerByte(s[i]))
  }
}

/** Two facts about concatenation, kept apart so that proofs about folds stay cheap. */
module Sequences {
  lemma SplitLast<T>(a: seq<T>, b: seq<T>)
    requires b != []
    ensures b == b[..|b| - 1] + [b[|b| - 1]]
    ensures a + b == (a + b[..|b| - 1]) + [b[|b| - 1]]
  {
  }

  lemma Associative<T>(a: seq<T>, b: seq<T>, c: seq<T>)
    ensures a + (b + c) == (a + b) + c
  {
  }
}

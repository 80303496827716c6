/** Value types shared by every module of the model. */
module Common {

  /** An unsigned 8-bit value (Rust `u8`). */
  type byte = bv8

  /** An unsigned 16-bit value (Rust `u16`). */
  type u16 = bv16

  /** Rust `Option<T>`. */
  datatype Option<+T> = None | Some(value: T)

  /** Rust `Result<T, E>`. */
  datatype Result<+T, +E> = Ok(value: T) | Err(error: E)

  /** `n` zero bytes. */
  function Zeros(n: nat): (r: seq<byte>)
    ensures |r| == n
    ensures forall i :: 0 <= i < n ==> r[i] == 0
  {
    seq(n, _ => 0)
  }

  /** `n as u8` for a value that fits, built up one increment at a time. */
  function ByteOf(n: int): (c: byte)
    requires 0 <= n < 256
    ensures c as int == n
    decreases n
  {
    if n == 0 then 0 else Succ(ByteOf(n - 1))
  }

  /** The byte after `x`, for a byte below 0xFF. */
  function Succ(x: byte): (y: byte)
    requires x as int < 255
    ensures y as int == x as int + 1
  {
    x + 1
  }

  /** Two bytes with the same numeric value are the same byte. */
  lemma ByteInjective(a: byte, b: byte)
    ensures a as int == b as int ==> a == b
  {
  }

  /** `ByteOf` gives back a byte from its numeric value. */
  lemma ByteOfValue(b: byte)
    ensures ByteOf(b as int) == b
  {
    ByteInjective(ByteOf(b as int), b);
  }

  /** `ByteOf(n)` is the byte whose value is `n`. */
  lemma ByteOfIs(n: int, b: byte)
    requires 0 <= n < 256 && b as int == n
    ensures ByteOf(n) == b
  {
    ByteInjective(ByteOf(n), b);
  }
}

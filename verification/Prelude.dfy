/** Shared result types, and the byte strings every encoding in the project is made of. */
module Prelude {

  datatype Option<+T> = None | Some(value: T)

  datatype Result<+T, +E> = Ok(value: T) | Err(error: E)

  type Byte = b: nat | b < 256

  type Bytes = seq<Byte>

  /** What SHA-256 returns. The hash itself is a parameter `H: Bytes -> Digest` of whatever uses it. */
  type Digest = d: Bytes | |d| == 32 witness seq(32, _ => 0)

  function Pow2(e: nat): (p: nat)
    ensures p >= 1
  {
    if e == 0 then 1 else 2 * Pow2(e - 1)
  }

  lemma SubsetSize<T>(a: set<T>, b: set<T>)
    requires a <= b
    ensures |a| <= |b|
  {
    assert b == a + (b - a);
  }
}

/**
 * Sequence numbers of the log. LLSN and GLSN are Go `uint64`s; the model keeps
 * them as integers in [0, 2^64) and writes every wrap-around out with `Wrap`.
 * The `types` package itself is not part of this model: the constants below
 * follow its names (0 is invalid, 1 is the minimum, 2^64 - 1 the maximum).
 */
module Types {

  const U64_MODULUS: int := 0x1_0000_0000_0000_0000

  type U64 = x: int | 0 <= x < U64_MODULUS

  /** Global log sequence number: cluster-wide commit order. */
  type GLSN = U64

  /** Local log sequence number: per-replica append order. */
  type LLSN = U64

  const InvalidGLSN: GLSN := 0
  const MinGLSN: GLSN := 1
  const MaxGLSN: GLSN := U64_MODULUS - 1

  const InvalidLLSN: LLSN := 0
  const MinLLSN: LLSN := 1
  const MaxLLSN: LLSN := U64_MODULUS - 1

  /** Payload bytes of a log entry. */
  type Bytes = seq<bv8>

  /** Unsigned 64-bit arithmetic: the result of a Go `uint64` operation whose exact value is `x`. */
  function Wrap(x: int): (r: U64)
    ensures 0 <= x < U64_MODULUS ==> r == x
    ensures x == MaxGLSN + 1 ==> r == 0
  {
    x % U64_MODULUS
  }
}

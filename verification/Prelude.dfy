/** Types shared by every module: Go bytes and strings, and the optional value. */
module Prelude {

  type byte = b: int | 0 <= b < 256

  type u16 = n: int | 0 <= n < 65536

  /** A Go string or byte slice; Go strings are sequences of bytes, not of characters. */
  type bytes = seq<byte>

  /** The number of values of a Go uint64. */
  const TWO64: int := 0x1_0000_0000_0000_0000

  type u64 = n: int | 0 <= n < TWO64

  /** Durations are in nanoseconds. */
  const SECOND: int := 1_000_000_000

  datatype Option<+T> = None | Some(value: T)

  datatype Result<+T, +E> = Ok(value: T) | Err(error: E)

  function Zeros(n: nat): (z: bytes)
    ensures |z| == n && forall i :: 0 <= i < n ==> z[i] == 0
  {
    if n == 0 then [] else [0] + Zeros(n - 1)
  }

  predicate IsPrefix(a: bytes, b: bytes) {
    |a| <= |b| && b[..|a|] == a
  }

  /** The elements of a occur in b in the same order, each at a place of its own. */
  predicate Subsequence(a: seq<bytes>, b: seq<bytes>)
    decreases |b|
  {
    || a == []
    || (b != []
        && ((a[|a| - 1] == b[|b| - 1] && Subsequence(a[..|a| - 1], b[..|b| - 1])) || Subsequence(a, b[..|b| - 1])))
  }

  lemma {:induction false} SubsequenceElement(a: seq<bytes>, b: seq<bytes>, k: nat) returns (j: nat)
    requires Subsequence(a, b) && k < |a|
    ensures j < |b| && b[j] == a[k]
    decreases |b|
  {
    if Subsequence(a, b[..|b| - 1]) {
      j := SubsequenceElement(a, b[..|b| - 1], k);
    } else if k == |a| - 1 {
      j := |b| - 1;
    } else {
      j := SubsequenceElement(a[..|a| - 1], b[..|b| - 1], k);
    }
  }
}

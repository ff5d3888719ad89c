// Bytes, machine words and the option type shared by the other modules.
module Bytes {
  type byte = x: int | 0 <= x < 256

  datatype Option<+T> = None | Some(value: T)

  /** A block of n zero bytes, as an anonymous host mapping starts out. */
  function Zeros(n: nat): (z: seq<byte>)
    ensures |z| == n && forall i :: 0 <= i < n ==> z[i] == 0
  {
    seq(n, _ => 0)
  }

  lemma SliceOfSlice<T>(s: seq<T>, a: nat, b: nat, i: nat, n: nat)
    requires a <= b <= |s| && i + n <= b - a
    ensures s[a..b][i..i + n] == s[a + i..a + i + n]
  {
    var left, right := s[a..b][i..i + n], s[a + i..a + i + n];
    forall j | 0 <= j < n ensures left[j] == right[j] {
      assert left[j] == s[a..b][i + j];
    }
  }

  lemma Associate(a: seq<byte>, b: seq<byte>, c: seq<byte>)
    ensures a + b + c == a + (b + c)
  {
  }

  /** memcpy of vs to position i of b. */
  function Splice(b: seq<byte>, i: nat, vs: seq<byte>): (r: seq<byte>)
    requires i + |vs| <= |b|
    ensures |r| == |b|
    ensures forall j :: 0 <= j < |b| ==> r[j] == if i <= j < i + |vs| then vs[j - i] else b[j]
  {
    b[..i] + vs + b[i + |vs|..]
  }
}

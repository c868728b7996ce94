/**
  Bytes as numbers, and results that may be missing.
*/
module Octets {

  type Octet = x: int | 0 <= x < 256

  type Bytes = seq<Octet>

  datatype Option<T> = None | Some(value: T)

  /** `v` as `n` bytes, the lowest first. */
  function Number(v: nat, n: nat): (w: Bytes)
    ensures |w| == n
  {
    if n == 0 then [] else [v % 256] + Number(v / 256, n - 1)
  }

  /** The same character, or the same letter in either case. */
  predicate SameLetter(c: Octet, d: Octet) {
    c == d || ('A' <= c as char <= 'Z' && d == c + 32) || ('a' <= c as char <= 'z' && c == d + 32)
  }

  /** `s` has the bytes `w` at `i`. */
  predicate Has(s: Bytes, i: nat, w: Bytes) { i + |w| <= |s| && forall k | 0 <= k < |w| :: s[i + k] == w[k] }

  lemma HasSlice(s: Bytes, i: nat, w: Bytes)
    requires i + |w| <= |s|
    ensures Has(s, i, w) <==> s[i..i + |w|] == w
  {
    if s[i..i + |w|] == w {
      forall k | 0 <= k < |w| ensures s[i + k] == w[k] { assert s[i + k] == s[i..i + |w|][k]; }
    }
  }
}

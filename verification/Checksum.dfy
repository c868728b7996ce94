/**
  The Internet checksum of RFC 1071 as kernel/net/ipv4.c computes it, against its meaning: the one's-complement sum of
  the 16-bit words. Inserting the complement of the sum makes the whole sum to "all ones".
*/
module Checksum {
  import opened Octets

  const ONES: nat := 65535

  function Get16(s: seq<Octet>, i: nat): (v: nat)
    requires i + 2 <= |s|
    ensures v <= ONES
  {
    256 * (s[i] as int) + s[i + 1] as int
  }

  function Put16(v: nat): (s: seq<Octet>)
    requires v <= ONES
    ensures |s| == 2 && Get16(s, 0) == v
  {
    [v / 256, v % 256]
  }

  /** The plain sum of the big-endian words; an odd last byte is the high half of a word. */
  ghost function WordSum(s: seq<Octet>): nat {
    if s == [] then 0 else if |s| == 1 then 256 * (s[0] as int) else Get16(s, 0) + WordSum(s[2..])
  }

  /** The one's-complement sum: the residue modulo 65535, with zero only for an empty sum. */
  function OnesSum(n: nat): (r: nat)
    ensures r <= ONES && (r == 0 <==> n == 0)
  {
    if n == 0 then 0 else (n - 1) % ONES + 1
  }

  ghost function InternetChecksum(s: seq<Octet>): (c: nat)
    ensures c <= ONES
  {
    ONES - OnesSum(WordSum(s))
  }

  // ---------------------------------------------------------------- folding

  function Fold(x: nat): nat { x % 65536 + x / 65536 }

  lemma FoldResidue(x: nat)
    ensures OnesSum(Fold(x)) == OnesSum(x) && (x > ONES ==> Fold(x) < x)
  {
    var q, r := x / 65536, x % 65536;
    assert x == 65536 * q + r && Fold(x) == q + r;
    if x != 0 {
      assert x - 1 == ONES * q + (q + r - 1);
      SameResidue(q, q + r - 1);
    }
  }

  lemma SameResidue(q: nat, m: nat)
    ensures (ONES * q + m) % ONES == m % ONES
  {
    var d := m / ONES;
    assert m == ONES * d + m % ONES;
    assert ONES * q + m == ONES * (q + d) + m % ONES;
    Residue(q + d, m % ONES);
  }

  lemma Residue(d: nat, r: nat)
    requires r < ONES
    ensures (ONES * d + r) % ONES == r
  {
  }

  /** Adding to a sum and adding to its residue are the same thing. */
  lemma AddResidue(a: nat, b: nat, n: nat)
    requires OnesSum(a) == OnesSum(b)
    ensures OnesSum(a + n) == OnesSum(b + n)
  {
    if a != 0 {
      var qa, qb, r := (a - 1) / ONES, (b - 1) / ONES, (a - 1) % ONES;
      assert a - 1 == ONES * qa + r && b - 1 == ONES * qb + r;
      SameResidue(qa, r + n);
      SameResidue(qb, r + n);
      assert a + n - 1 == ONES * qa + (r + n) && b + n - 1 == ONES * qb + (r + n);
    }
  }

  /** The loop of the source: fold after every word, then until nothing is left above 16 bits. */
  method NetChecksum(data: seq<Octet>) returns (c: nat)
    ensures c == InternetChecksum(data)
  {
    hide OnesSum, Fold;
    var sum: nat, i: nat := 0, 0;
    assert data[0..] == data;
    while |data| - i >= 2
      invariant i <= |data| && OnesSum(sum + WordSum(data[i..])) == OnesSum(WordSum(data)) && sum <= 65536
    {
      assert data[i..][2..] == data[i + 2..];
      ghost var before := sum;
      sum := sum + Get16(data, i);
      FoldResidue(sum);
      AddResidue(Fold(sum), sum, WordSum(data[i + 2..]));
      assert Fold(sum) <= 65536 by { SmallFold(sum); }
      sum := Fold(sum);
      i := i + 2;
    }
    if |data| - i != 0 { sum := sum + 256 * (data[i] as int); }
    assert OnesSum(sum) == OnesSum(WordSum(data));
    while sum > ONES
      invariant OnesSum(sum) == OnesSum(WordSum(data))
    {
      FoldResidue(sum);
      sum := Fold(sum);
    }
    Settled(sum);
    c := ONES - sum;
  }

  lemma SmallFold(x: nat)
    requires x <= 65536 + ONES
    ensures Fold(x) <= 65536
  {
  }

  lemma Settled(x: nat)
    requires x <= ONES
    ensures OnesSum(x) == x
  {
  }

  // ---------------------------------------------------------------- the field that completes the sum

  /** Storing a word over a zero word at an even place adds it to the sum. */
  lemma {:induction false} StoreWord(s: seq<Octet>, i: nat, v: nat)
    requires i % 2 == 0 && i + 2 <= |s| && s[i] == 0 && s[i + 1] == 0 && v <= ONES
    ensures WordSum(s[..i] + Put16(v) + s[i + 2..]) == WordSum(s) + v
    decreases |s|
  {
    var r := s[..i] + Put16(v) + s[i + 2..];
    if i == 0 {
      assert r[2..] == s[2..];
    } else {
      assert r[2..] == s[2..][..i - 2] + Put16(v) + s[2..][i..];
      StoreWord(s[2..], i - 2, v);
    }
  }

  /** With the complement of the sum stored in its place, the recomputed checksum is zero; so it is with all ones for zero. */
  lemma Completes(s: seq<Octet>, i: nat, v: nat)
    requires i % 2 == 0 && i + 2 <= |s| && s[i] == 0 && s[i + 1] == 0
    requires v == InternetChecksum(s) || (InternetChecksum(s) == 0 && v == ONES)
    ensures InternetChecksum(s[..i] + Put16(v) + s[i + 2..]) == 0
  {
    StoreWord(s, i, v);
    var n := WordSum(s);
    var r := OnesSum(n);
    Settled(r);
    AddResidue(n, r, v);
    assert r + v == ONES || r + v == 2 * ONES;
  }

  /** A header that passed no longer passes once one word has changed, unless zero and all ones were exchanged. */
  lemma WordErrorDetected(s: seq<Octet>, i: nat, v: nat, w: nat)
    requires i % 2 == 0 && i + 2 <= |s| && s[i] == 0 && s[i + 1] == 0 && v <= ONES && w <= ONES && v != w
    requires InternetChecksum(s[..i] + Put16(v) + s[i + 2..]) == 0 && {v, w} != {0, ONES}
    ensures InternetChecksum(s[..i] + Put16(w) + s[i + 2..]) != 0
  {
    StoreWord(s, i, v);
    StoreWord(s, i, w);
    var n := WordSum(s);
    if v < w { Multiples(n + v, n + w); } else { Multiples(n + w, n + v); }
  }

  /** Two sums that both come out as all ones are a multiple of 65535 apart. */
  lemma Multiples(a: nat, b: nat)
    requires a < b
    ensures OnesSum(a) == ONES && OnesSum(b) == ONES ==> b - a >= ONES
  {
    if OnesSum(a) == ONES && OnesSum(b) == ONES {
      assert a == ONES * ((a - 1) / ONES) + ONES && b == ONES * ((b - 1) / ONES) + ONES;
    }
  }
}

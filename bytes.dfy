/**
 * Bytes, the little-endian words the hash functions read out of them, and the
 * byte strings `write_str` produces.
 */
module Bytes {
  type byte = bv8

  /** Euclidean division is unique: a quotient and remainder in range are the ones `/` and `%` give. */
  lemma DivModUnique(v: int, m: int, q: int, r: int)
    requires m > 0 && 0 <= r < m && v == m * q + r
    ensures v / m == q && v % m == r
  {
    if q > v / m {
      assert m * q >= m * (v / m + 1) by { LeMul(m, v / m + 1, q); }
    } else if q < v / m {
      assert m * (v / m) >= m * (q + 1) by { LeMul(m, q + 1, v / m); }
    }
  }

  lemma LeMul(m: int, a: int, b: int)
    requires m > 0 && a <= b
    ensures m * a <= m * b
  {}

  /** `s` back to front. */
  function Reverse(s: seq<byte>): (r: seq<byte>)
    ensures |r| == |s|
    ensures forall i :: 0 <= i < |s| ==> r[i] == s[|s| - 1 - i]
  {
    if s == [] then [] else Reverse(s[1..]) + [s[0]]
  }

  lemma ReverseReverse(s: seq<byte>)
    ensures Reverse(Reverse(s)) == s
  {}

  /** No byte of `s` is 0xff; true of every UTF-8 string. */
  predicate NoFF(s: seq<byte>)
  {
    forall i :: 0 <= i < |s| ==> s[i] != 0xff
  }

  /** The bytes `write_str` feeds: the string's UTF-8 bytes, then the terminator 0xff. */
  function StrBytes(s: seq<byte>): (r: seq<byte>)
    ensures |r| == |s| + 1 && r[..|s|] == s && r[|s|] == 0xff
  {
    s + [0xff]
  }

  /** In the bytes of a string write, the first 0xff is the terminator. */
  lemma TerminatorFirst(s: seq<byte>, x: seq<byte>)
    requires NoFF(s)
    ensures (StrBytes(s) + x)[|s|] == 0xff
    ensures forall k :: 0 <= k < |s| ==> (StrBytes(s) + x)[k] != 0xff
  {}

  /**
   * The terminator makes string writes prefix-free: two strings followed by
   * anything produce the same bytes only if the strings and what follows are equal.
   */
  lemma {:induction false} StrBytesPrefixFree(s: seq<byte>, t: seq<byte>, x: seq<byte>, y: seq<byte>)
    requires NoFF(s) && NoFF(t)
    requires StrBytes(s) + x == StrBytes(t) + y
    ensures s == t && x == y
  {
    var a, b := StrBytes(s) + x, StrBytes(t) + y;
    TerminatorFirst(s, x);
    TerminatorFirst(t, y);
    assert |s| == |t|;
    assert s == a[..|s|];
    assert t == b[..|t|];
    assert x == a[|s| + 1..];
    assert y == b[|t| + 1..];
  }

  /** The little-endian 64-bit word of up to 8 bytes, zero-extended (`u64::from_le_bytes` of a zero-padded buffer). */
  function LeWord(s: seq<byte>): (w: bv64)
    requires |s| <= 8
    decreases |s|
  {
    if s == [] then 0 else (s[0] as bv64) | (LeWord(s[1..]) << 8)
  }

  /** `n as u64`: the low 64 bits of `n`, built from its binary digits. */
  function U64(n: nat): bv64
  {
    if n == 0 then 0 else (U64(n / 2) << 1) | (if n % 2 == 1 then 1 else 0)
  }

  /** The first i + 1 bytes are the first i and then byte i. */
  lemma TakeSnoc(s: seq<byte>, i: nat)
    requires i < |s|
    ensures s[..i + 1] == s[..i] + [s[i]]
  {}
}

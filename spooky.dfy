/**
 * SpookyHash V1 and V2 as the hash-t crate implements it: Bob Jenkins'
 * 128-bit non-cryptographic hash. Messages under 192 bytes take the short
 * path, four 64-bit words stirred by `ShortMix` and `ShortEnd`; longer ones
 * go through twelve words that absorb 96-byte blocks with `Mix` and are
 * finished by `End`. The two versions differ in how the length enters the
 * short path and in how the last block is absorbed.
 *
 * All arithmetic is wrapping 64-bit arithmetic, so words are `bv64`. The host
 * is little-endian: the words read from the byte buffer are little-endian.
 *
 * Each round function is reached through a countdown (`MixAt(.., n)` and its
 * kin, which call themselves with `n - 1` until `n` is 0 and then run the
 * rounds), so that proofs about the block structure never unfold the rounds.
 */
module Spooky {
  import opened Bytes

  /** The `Version` type parameter: `V1` or `V2`. */
  datatype Version = V1 | V2

  /** Twelve words, one field per element of a `[u64; SC_NUM_VARS]`. */
  datatype Words12<W> = S12(w0: W, w1: W, w2: W, w3: W, w4: W, w5: W,
                            w6: W, w7: W, w8: W, w9: W, w10: W, w11: W)
  /** The state of the long path. */
  type S12 = Words12<bv64>

  /** Four words, one field per element of a `[u64; 4]`. */
  datatype Words4<W> = H4(h0: W, h1: W, h2: W, h3: W)
  /** The state of the short path. */
  type H4 = Words4<bv64>

  /** `SC_CONST`: the constant the short path and the long-path state start from. */
  const ScConst: bv64 := 0xdeadbeefdeadbeef

  /** `SC_BLOCK_SIZE`: the long path absorbs blocks of twelve words. */
  const BlockSize: nat := 96
  /** `SC_BUF_SIZE`: two blocks; shorter messages take the short path. */
  const BufSize: nat := 192

  /** The little-endian word at bytes 8j..8j+8 of `s`. */
  function Word(s: seq<byte>, j: nat): bv64
    requires 8 * j + 8 <= |s|
  {
    LeWord(s[8 * j..8 * j + 8])
  }

  /** The words of `Block`, read after a countdown of `n`. */
  function BlockAt(s: seq<byte>, n: nat): S12
    requires |s| == 96
    decreases n, s
  {
    if n > 0 then BlockAt(s, n - 1) else
    S12(Word(s, 0), Word(s, 1), Word(s, 2), Word(s, 3), Word(s, 4), Word(s, 5),
        Word(s, 6), Word(s, 7), Word(s, 8), Word(s, 9), Word(s, 10), Word(s, 11))
  }

  /** A 96-byte block read as twelve little-endian words. */
  function Block(s: seq<byte>): S12
    requires |s| == 96
  {
    BlockAt(s, 3)
  }

  /** The rounds of `Mix`, run after a countdown of `n`. */
  function MixAt(d: S12, s: S12, n: nat): S12
    decreases n, s
  {
    if n > 0 then MixAt(d, s, n - 1) else
    // i = 0, r = 11
    var s := s.(w0 := s.w0 + d.w0);
    var s := s.(w2 := s.w2 ^ s.w10);
    var s := s.(w11 := s.w11 ^ s.w0);
    var s := s.(w0 := s.w0.RotateLeft(11));
    var s := s.(w11 := s.w11 + s.w1);
    // i = 1, r = 32
    var s := s.(w1 := s.w1 + d.w1);
    var s := s.(w3 := s.w3 ^ s.w11);
    var s := s.(w0 := s.w0 ^ s.w1);
    var s := s.(w1 := s.w1.RotateLeft(32));
    var s := s.(w0 := s.w0 + s.w2);
    // i = 2, r = 43
    var s := s.(w2 := s.w2 + d.w2);
    var s := s.(w4 := s.w4 ^ s.w0);
    var s := s.(w1 := s.w1 ^ s.w2);
    var s := s.(w2 := s.w2.RotateLeft(43));
    var s := s.(w1 := s.w1 + s.w3);
    // i = 3, r = 31
    var s := s.(w3 := s.w3 + d.w3);
    var s := s.(w5 := s.w5 ^ s.w1);
    var s := s.(w2 := s.w2 ^ s.w3);
    var s := s.(w3 := s.w3.RotateLeft(31));
    var s := s.(w2 := s.w2 + s.w4);
    // i = 4, r = 17
    var s := s.(w4 := s.w4 + d.w4);
    var s := s.(w6 := s.w6 ^ s.w2);
    var s := s.(w3 := s.w3 ^ s.w4);
    var s := s.(w4 := s.w4.RotateLeft(17));
    var s := s.(w3 := s.w3 + s.w5);
    // i = 5, r = 28
    var s := s.(w5 := s.w5 + d.w5);
    var s := s.(w7 := s.w7 ^ s.w3);
    var s := s.(w4 := s.w4 ^ s.w5);
    var s := s.(w5 := s.w5.RotateLeft(28));
    var s := s.(w4 := s.w4 + s.w6);
    // i = 6, r = 39
    var s := s.(w6 := s.w6 + d.w6);
    var s := s.(w8 := s.w8 ^ s.w4);
    var s := s.(w5 := s.w5 ^ s.w6);
    var s := s.(w6 := s.w6.RotateLeft(39));
    var s := s.(w5 := s.w5 + s.w7);
    // i = 7, r = 57
    var s := s.(w7 := s.w7 + d.w7);
    var s := s.(w9 := s.w9 ^ s.w5);
    var s := s.(w6 := s.w6 ^ s.w7);
    var s := s.(w7 := s.w7.RotateLeft(57));
    var s := s.(w6 := s.w6 + s.w8);
    // i = 8, r = 55
    var s := s.(w8 := s.w8 + d.w8);
    var s := s.(w10 := s.w10 ^ s.w6);
    var s := s.(w7 := s.w7 ^ s.w8);
    var s := s.(w8 := s.w8.RotateLeft(55));
    var s := s.(w7 := s.w7 + s.w9);
    // i = 9, r = 54
    var s := s.(w9 := s.w9 + d.w9);
    var s := s.(w11 := s.w11 ^ s.w7);
    var s := s.(w8 := s.w8 ^ s.w9);
    var s := s.(w9 := s.w9.RotateLeft(54));
    var s := s.(w8 := s.w8 + s.w10);
    // i = 10, r = 22
    var s := s.(w10 := s.w10 + d.w10);
    var s := s.(w0 := s.w0 ^ s.w8);
    var s := s.(w9 := s.w9 ^ s.w10);
    var s := s.(w10 := s.w10.RotateLeft(22));
    var s := s.(w9 := s.w9 + s.w11);
    // i = 11, r = 46
    var s := s.(w11 := s.w11 + d.w11);
    var s := s.(w1 := s.w1 ^ s.w9);
    var s := s.(w10 := s.w10 ^ s.w11);
    var s := s.(w11 := s.w11.RotateLeft(46));
    var s := s.(w10 := s.w10 + s.w0);
    s
  }

  /** `mix`: the state `s` absorbs the block `d`, twelve rounds of add, xor, rotate. */
  function Mix(d: S12, s: S12): S12
  {
    MixAt(d, s, 3)
  }

  /** The rounds of `ShortMix`, run after a countdown of `n`. */
  function ShortMixAt(h: H4, n: nat): H4
    decreases n, h
  {
    if n > 0 then ShortMixAt(h, n - 1) else
    // i = 0, r = 50
    var h := h.(h2 := h.h2.RotateLeft(50));
    var h := h.(h2 := h.h2 + h.h3);
    var h := h.(h0 := h.h0 ^ h.h2);
    // i = 1, r = 52
    var h := h.(h3 := h.h3.RotateLeft(52));
    var h := h.(h3 := h.h3 + h.h0);
    var h := h.(h1 := h.h1 ^ h.h3);
    // i = 2, r = 30
    var h := h.(h0 := h.h0.RotateLeft(30));
    var h := h.(h0 := h.h0 + h.h1);
    var h := h.(h2 := h.h2 ^ h.h0);
    // i = 3, r = 41
    var h := h.(h1 := h.h1.RotateLeft(41));
    var h := h.(h1 := h.h1 + h.h2);
    var h := h.(h3 := h.h3 ^ h.h1);
    // i = 0, r = 54
    var h := h.(h2 := h.h2.RotateLeft(54));
    var h := h.(h2 := h.h2 + h.h3);
    var h := h.(h0 := h.h0 ^ h.h2);
    // i = 1, r = 48
    var h := h.(h3 := h.h3.RotateLeft(48));
    var h := h.(h3 := h.h3 + h.h0);
    var h := h.(h1 := h.h1 ^ h.h3);
    // i = 2, r = 38
    var h := h.(h0 := h.h0.RotateLeft(38));
    var h := h.(h0 := h.h0 + h.h1);
    var h := h.(h2 := h.h2 ^ h.h0);
    // i = 3, r = 37
    var h := h.(h1 := h.h1.RotateLeft(37));
    var h := h.(h1 := h.h1 + h.h2);
    var h := h.(h3 := h.h3 ^ h.h1);
    // i = 0, r = 62
    var h := h.(h2 := h.h2.RotateLeft(62));
    var h := h.(h2 := h.h2 + h.h3);
    var h := h.(h0 := h.h0 ^ h.h2);
    // i = 1, r = 34
    var h := h.(h3 := h.h3.RotateLeft(34));
    var h := h.(h3 := h.h3 + h.h0);
    var h := h.(h1 := h.h1 ^ h.h3);
    // i = 2, r = 5
    var h := h.(h0 := h.h0.RotateLeft(5));
    var h := h.(h0 := h.h0 + h.h1);
    var h := h.(h2 := h.h2 ^ h.h0);
    // i = 3, r = 36
    var h := h.(h1 := h.h1.RotateLeft(36));
    var h := h.(h1 := h.h1 + h.h2);
    var h := h.(h3 := h.h3 ^ h.h1);
    h
  }

  /** `short_mix`: twelve rotate, add, xor rounds over the four short-path words. */
  function ShortMix(h: H4): H4
  {
    ShortMixAt(h, 3)
  }

  /** The rounds of `ShortEnd`, run after a countdown of `n`. */
  function ShortEndAt(h: H4, n: nat): H4
    decreases n, h
  {
    if n > 0 then ShortEndAt(h, n - 1) else
    // i = 0, r = 15
    var h := h.(h3 := h.h3 ^ h.h2);
    var h := h.(h2 := h.h2.RotateLeft(15));
    var h := h.(h3 := h.h3 + h.h2);
    // i = 1, r = 52
    var h := h.(h0 := h.h0 ^ h.h3);
    var h := h.(h3 := h.h3.RotateLeft(52));
    var h := h.(h0 := h.h0 + h.h3);
    // i = 2, r = 26
    var h := h.(h1 := h.h1 ^ h.h0);
    var h := h.(h0 := h.h0.RotateLeft(26));
    var h := h.(h1 := h.h1 + h.h0);
    // i = 3, r = 51
    var h := h.(h2 := h.h2 ^ h.h1);
    var h := h.(h1 := h.h1.RotateLeft(51));
    var h := h.(h2 := h.h2 + h.h1);
    // i = 0, r = 28
    var h := h.(h3 := h.h3 ^ h.h2);
    var h := h.(h2 := h.h2.RotateLeft(28));
    var h := h.(h3 := h.h3 + h.h2);
    // i = 1, r = 9
    var h := h.(h0 := h.h0 ^ h.h3);
    var h := h.(h3 := h.h3.RotateLeft(9));
    var h := h.(h0 := h.h0 + h.h3);
    // i = 2, r = 47
    var h := h.(h1 := h.h1 ^ h.h0);
    var h := h.(h0 := h.h0.RotateLeft(47));
    var h := h.(h1 := h.h1 + h.h0);
    // i = 3, r = 54
    var h := h.(h2 := h.h2 ^ h.h1);
    var h := h.(h1 := h.h1.RotateLeft(54));
    var h := h.(h2 := h.h2 + h.h1);
    // i = 0, r = 32
    var h := h.(h3 := h.h3 ^ h.h2);
    var h := h.(h2 := h.h2.RotateLeft(32));
    var h := h.(h3 := h.h3 + h.h2);
    // i = 1, r = 25
    var h := h.(h0 := h.h0 ^ h.h3);
    var h := h.(h3 := h.h3.RotateLeft(25));
    var h := h.(h0 := h.h0 + h.h3);
    // i = 2, r = 63
    var h := h.(h1 := h.h1 ^ h.h0);
    var h := h.(h0 := h.h0.RotateLeft(63));
    var h := h.(h1 := h.h1 + h.h0);
    h
  }

  /** `short_end`: the final eleven xor, rotate, add rounds of the short path. */
  function ShortEnd(h: H4): H4
  {
    ShortEndAt(h, 3)
  }

  /** The rounds of `EndPartial`, run after a countdown of `n`. */
  function EndPartialAt(h: S12, n: nat): S12
    decreases n, h
  {
    if n > 0 then EndPartialAt(h, n - 1) else
    // i = 0, r = 44
    var h := h.(w11 := h.w11 + h.w1);
    var h := h.(w2 := h.w2 ^ h.w11);
    var h := h.(w1 := h.w1.RotateLeft(44));
    // i = 1, r = 15
    var h := h.(w0 := h.w0 + h.w2);
    var h := h.(w3 := h.w3 ^ h.w0);
    var h := h.(w2 := h.w2.RotateLeft(15));
    // i = 2, r = 34
    var h := h.(w1 := h.w1 + h.w3);
    var h := h.(w4 := h.w4 ^ h.w1);
    var h := h.(w3 := h.w3.RotateLeft(34));
    // i = 3, r = 21
    var h := h.(w2 := h.w2 + h.w4);
    var h := h.(w5 := h.w5 ^ h.w2);
    var h := h.(w4 := h.w4.RotateLeft(21));
    // i = 4, r = 38
    var h := h.(w3 := h.w3 + h.w5);
    var h := h.(w6 := h.w6 ^ h.w3);
    var h := h.(w5 := h.w5.RotateLeft(38));
    // i = 5, r = 33
    var h := h.(w4 := h.w4 + h.w6);
    var h := h.(w7 := h.w7 ^ h.w4);
    var h := h.(w6 := h.w6.RotateLeft(33));
    // i = 6, r = 10
    var h := h.(w5 := h.w5 + h.w7);
    var h := h.(w8 := h.w8 ^ h.w5);
    var h := h.(w7 := h.w7.RotateLeft(10));
    // i = 7, r = 13
    var h := h.(w6 := h.w6 + h.w8);
    var h := h.(w9 := h.w9 ^ h.w6);
    var h := h.(w8 := h.w8.RotateLeft(13));
    // i = 8, r = 38
    var h := h.(w7 := h.w7 + h.w9);
    var h := h.(w10 := h.w10 ^ h.w7);
    var h := h.(w9 := h.w9.RotateLeft(38));
    // i = 9, r = 53
    var h := h.(w8 := h.w8 + h.w10);
    var h := h.(w11 := h.w11 ^ h.w8);
    var h := h.(w10 := h.w10.RotateLeft(53));
    // i = 10, r = 42
    var h := h.(w9 := h.w9 + h.w11);
    var h := h.(w0 := h.w0 ^ h.w9);
    var h := h.(w11 := h.w11.RotateLeft(42));
    // i = 11, r = 54
    var h := h.(w10 := h.w10 + h.w0);
    var h := h.(w1 := h.w1 ^ h.w10);
    var h := h.(w0 := h.w0.RotateLeft(54));
    h
  }

  /** `end_partial`: twelve add, xor, rotate rounds over the twelve words. */
  function EndPartial(h: S12): S12
  {
    EndPartialAt(h, 3)
  }

  /** Word-wise wrapping sum of two states. */
  function Add12(h: S12, d: S12): S12
  {
    S12(h.w0 + d.w0, h.w1 + d.w1, h.w2 + d.w2, h.w3 + d.w3, h.w4 + d.w4, h.w5 + d.w5,
        h.w6 + d.w6, h.w7 + d.w7, h.w8 + d.w8, h.w9 + d.w9, h.w10 + d.w10, h.w11 + d.w11)
  }

  /** `end`: V2 first adds the last block's words; both versions then run `end_partial` three times. */
  function End(v: Version, d: S12, h: S12): S12
  {
    var h := if v == V2 then Add12(h, d) else h;
    EndPartial(EndPartial(EndPartial(h)))
  }

  /** The low 64 bits of a 128-bit value (`as u64`). */
  function Low64(x: bv128): bv64
  {
    (x & 0xffff_ffff_ffff_ffff) as bv64
  }

  /** The high 64 bits of a 128-bit value (`(x >> 64) as u64`). */
  function High64(x: bv128): bv64
  {
    (x >> 64) as bv64
  }

  /** The low 32 bits of a 128-bit value (`as u32`). */
  function Low32(x: bv128): bv32
  {
    (x & 0xffff_ffff) as bv32
  }

  /** The 128-bit digest `h0 | h1 << 64`: its low and high halves are `lo` and `hi`. */
  function Pack(lo: bv64, hi: bv64): (r: bv128)
    ensures Low64(r) == lo && High64(r) == hi
  {
    (lo as bv128) | ((hi as bv128) << 64)
  }

  /** A 128-bit value is the digest of its two halves. */
  lemma PackHalves(x: bv128)
    ensures Pack(Low64(x), High64(x)) == x
  {}

  /** The first 32 bits of the digest are the first 32 bits of its low half. */
  lemma Low32OfLow64(x: bv128)
    ensures Low32(x) == (Low64(x) & 0xffff_ffff) as bv32
  {}

  /**
   * The fallthrough table of `short` entered at label `k`: labels 15 to 13
   * and 11 to 9 add single bytes into h3, 7 to 5 and 3 to 2 into h2, each
   * falling through to the next label; 12, 8, 4 and 1 add whole 32- or 64-bit
   * little-endian words and leave the table; 0 adds the constant to h2 and h3.
   */
  function FallFrom(h: H4, t: seq<byte>, k: nat): (r: H4)
    requires k <= |t| && k < 16
    ensures r.h0 == h.h0 && r.h1 == h.h1
    decreases k
  {
    if k == 15 then FallFrom(h.(h3 := h.h3 + (t[14] as bv64).RotateLeft(48)), t, 14)
    else if k == 14 then FallFrom(h.(h3 := h.h3 + (t[13] as bv64).RotateLeft(40)), t, 13)
    else if k == 13 then FallFrom(h.(h3 := h.h3 + (t[12] as bv64).RotateLeft(32)), t, 12)
    else if k == 12 then h.(h2 := h.h2 + LeWord(t[..8]), h3 := h.h3 + LeWord(t[8..12]))
    else if k == 11 then FallFrom(h.(h3 := h.h3 + (t[10] as bv64).RotateLeft(16)), t, 10)
    else if k == 10 then FallFrom(h.(h3 := h.h3 + (t[9] as bv64).RotateLeft(8)), t, 9)
    else if k == 9 then FallFrom(h.(h3 := h.h3 + t[8] as bv64), t, 8)
    else if k == 8 then h.(h2 := h.h2 + LeWord(t[..8]))
    else if k == 7 then FallFrom(h.(h2 := h.h2 + (t[6] as bv64).RotateLeft(48)), t, 6)
    else if k == 6 then FallFrom(h.(h2 := h.h2 + (t[5] as bv64).RotateLeft(40)), t, 5)
    else if k == 5 then FallFrom(h.(h2 := h.h2 + (t[4] as bv64).RotateLeft(32)), t, 4)
    else if k == 4 then h.(h2 := h.h2 + LeWord(t[..4]))
    else if k == 3 then FallFrom(h.(h2 := h.h2 + (t[2] as bv64).RotateLeft(16)), t, 2)
    else if k == 2 then FallFrom(h.(h2 := h.h2 + (t[1] as bv64).RotateLeft(8)), t, 1)
    else if k == 1 then h.(h2 := h.h2 + t[0] as bv64)
    else h.(h2 := h.h2 + ScConst, h3 := h.h3 + ScConst)
  }

  /** The fallthrough table on the 0 to 15 leftover bytes `t`: it touches only h2 and h3. */
  function Fallthrough(h: H4, t: seq<byte>): (r: H4)
    requires |t| < 16
    ensures r.h0 == h.h0 && r.h1 == h.h1
  {
    FallFrom(h, t, |t|)
  }

  /** With no leftover bytes, the table adds the constant to h2 and h3. */
  lemma FallthroughEmpty(h: H4)
    ensures Fallthrough(h, []) == H4(h.h0, h.h1, h.h2 + ScConst, h.h3 + ScConst)
  {}

  /** One 32-byte chunk of `short`: words 0 and 1 go in before `short_mix`, words 2 and 3 after. */
  function ShortRound(h: H4, c: seq<byte>): H4
    requires |c| == 32
  {
    var h := ShortMix(h.(h2 := h.h2 + Word(c, 0), h3 := h.h3 + Word(c, 1)));
    h.(h0 := h.h0 + Word(c, 2), h1 := h.h1 + Word(c, 3))
  }

  /** The optional 16-byte half chunk of `short`: two words, then `short_mix`. */
  function ShortHalf(h: H4, c: seq<byte>): H4
    requires |c| == 16
  {
    ShortMix(h.(h2 := h.h2 + Word(c, 0), h3 := h.h3 + Word(c, 1)))
  }

  /** Every whole 32-byte chunk of `s`, first chunk first. */
  function ShortChunks(h: H4, s: seq<byte>): H4
    decreases |s|
  {
    if |s| < 32 then h else ShortChunks(ShortRound(h, s[..32]), s[32..])
  }

  /** `short`: the short-path digest of the message `msg` of fewer than 192 bytes under seeds `s1`, `s2`. */
  function Short(v: Version, s1: bv64, s2: bv64, msg: seq<byte>): bv128
    requires |msg| < 192
  {
    var n := |msg|;
    var whole := if n > 15 then n / 32 * 32 else 0;
    var half := n > 15 && n % 32 >= 16;
    var start := if half then whole + 16 else whole;
    var h := ShortChunks(H4(s1, s2, ScConst, ScConst), msg[..whole]);
    var h := if half then ShortHalf(h, msg[whole..whole + 16]) else h;
    var len := U64(n).RotateLeft(56);
    var h := if v == V1 then h.(h3 := len) else h.(h3 := h.h3 + len);
    var h := ShortEnd(Fallthrough(h, msg[start..]));
    Pack(h.h0, h.h1)
  }

  /** The state after every whole 96-byte block of `s`, first block first. */
  function MixBlocks(h: S12, s: seq<byte>): S12
    decreases |s|
  {
    if |s| < 96 then h else MixBlocks(Mix(Block(s[..96]), h), s[96..])
  }

  /** Absorbing a block after block-aligned input is one more `Mix`. */
  lemma {:induction false} MixBlocksSnoc(h: S12, p: seq<byte>, b: seq<byte>)
    requires |p| % 96 == 0 && |b| == 96
    ensures MixBlocks(h, p + b) == Mix(Block(b), MixBlocks(h, p))
    decreases |p|
  {
    if p == [] {
      assert p + b == b && b[96..] == [] && b[..96] == b;
    } else {
      assert (p + b)[..96] == p[..96] && (p + b)[96..] == p[96..] + b;
      MixBlocksSnoc(Mix(Block(p[..96]), h), p[96..], b);
    }
  }

  /** Absorbing block-aligned input in two parts is absorbing it at once. */
  lemma {:induction false} MixBlocksAppend(h: S12, p: seq<byte>, q: seq<byte>)
    requires |p| % 96 == 0
    ensures MixBlocks(h, p + q) == MixBlocks(MixBlocks(h, p), q)
    decreases |p|
  {
    if p == [] {
      assert p + q == q;
    } else {
      assert (p + q)[..96] == p[..96] && (p + q)[96..] == p[96..] + q;
      MixBlocksAppend(Mix(Block(p[..96]), h), p[96..], q);
    }
  }

  /** The long-path start of `write`: (seed1, seed2, constant) four times. */
  function Init12(s1: bv64, s2: bv64): (r: S12)
  {
    S12(s1, s2, ScConst, s1, s2, ScConst,
        s1, s2, ScConst, s1, s2, ScConst)
  }

  /** The last block of `finish`: the leftover bytes, zeros, and the leftover count as byte 95. */
  function Pad(rest: seq<byte>): (p: seq<byte>)
    requires |rest| < 96
    ensures |p| == 96 && p[..|rest|] == rest && p[95] == |rest| as byte
    ensures forall i :: |rest| <= i < 95 ==> p[i] == 0
  {
    rest + seq(95 - |rest|, _ => 0) + [|rest| as byte]
  }

  /**
   * The long-path `finish` of a state and the fewer than 192 buffered bytes
   * `buf`: a full first block is mixed, the rest is padded; V1 mixes the
   * padded block and `end` absorbs it; the digest is words 0 and 1.
   */
  function Final(v: Version, h: S12, buf: seq<byte>): bv128
    requires |buf| < 192
  {
    var h := if |buf| >= 96 then Mix(Block(buf[..96]), h) else h;
    var rest := if |buf| >= 96 then buf[96..] else buf;
    var d := Block(Pad(rest));
    var h := if v == V1 then Mix(d, h) else h;
    var h := End(v, d, h);
    Pack(h.w0, h.w1)
  }

  /** The number of bytes of `s` that whole blocks cover. */
  function Aligned(s: seq<byte>): (k: nat)
    ensures k <= |s| && k % 96 == 0 && |s| - k < 96
  {
    |s| - |s| % 96
  }

  /** A block-aligned cut less than a block from the end is where `Aligned` cuts. */
  lemma AlignedAt(s: seq<byte>, k: nat)
    requires k <= |s| && k % 96 == 0 && |s| - k < 96
    ensures Aligned(s) == k
  {
    DivModUnique(|s|, 96, k / 96, |s| - k);
  }

  /**
   * SpookyHash of the message `msg` under seeds `s1`, `s2`: the short path
   * below 192 bytes; otherwise every whole block is mixed into the initial
   * state and the rest goes to `Final`.
   */
  function Hash128(v: Version, s1: bv64, s2: bv64, msg: seq<byte>): bv128
  {
    if |msg| < 192 then Short(v, s1, s2, msg)
    else Final(v, MixBlocks(Init12(s1, s2), msg[..Aligned(msg)]), msg[Aligned(msg)..])
  }

  /**
   * `finish` may hold up to 191 bytes back; whatever block-aligned prefix of
   * a long message has been mixed, `Final` of the rest gives `Hash128`.
   */
  lemma {:induction false} FinalAnyCut(v: Version, s1: bv64, s2: bv64, msg: seq<byte>, k: nat)
    requires |msg| >= 192 && k <= |msg| && k % 96 == 0 && |msg| - k < 192
    ensures Final(v, MixBlocks(Init12(s1, s2), msg[..k]), msg[k..]) == Hash128(v, s1, s2, msg)
  {
    if |msg| - k < 96 {
      AlignedAt(msg, k);
    } else {
      var h := MixBlocks(Init12(s1, s2), msg[..k]);
      AlignedAt(msg, k + 96);
      assert msg[..k + 96] == msg[..k] + msg[k..][..96];
      MixBlocksSnoc(Init12(s1, s2), msg[..k], msg[k..][..96]);
      assert msg[k..][96..] == msg[k + 96..];
    }
  }

  /** Absorbing two blocks after block-aligned input is two more `Mix`es. */
  lemma {:induction false} MixTwoBlocks(h: S12, p: seq<byte>, buf: seq<byte>)
    requires |p| % 96 == 0 && |buf| == 192
    ensures MixBlocks(h, p + buf) == Mix(Block(buf[96..]), Mix(Block(buf[..96]), MixBlocks(h, p)))
  {
    MixBlocksSnoc(h, p, buf[..96]);
    MixBlocksSnoc(h, p + buf[..96], buf[96..]);
    assert p + buf[..96] + buf[96..] == p + buf;
  }

  /**
   * A `SpookyV` hasher: `data` (24 words, kept as their 192 little-endian
   * bytes), `state`, `length` and `remainder`. The version is the type
   * parameter `V`.
   */
  class Hasher {
    const version: Version
    var data: seq<byte>
    var state: S12
    var length: nat
    /** The number of valid bytes at the front of `data` (a `u8` in the source; always below 192). */
    var remainder: nat
    /** The seeds the hasher was created with. */
    ghost var seed1: bv64
    ghost var seed2: bv64
    /** Every byte written so far, in order. */
    ghost var stream: seq<byte>
    /** The bytes of `stream` that `state` has absorbed, whole blocks before the buffered bytes. */
    ghost var absorbed: seq<byte>

    /** The representation invariant `Inv` of the fields. */
    ghost predicate Valid()
      reads this
    {
      Inv(data, state, length, remainder, seed1, seed2, stream, absorbed)
    }

    /** `SpookyV::with_seed`: state words 0 and 1 hold the seeds, everything else is zero. */
    constructor WithSeed(version: Version, seed1: bv64, seed2: bv64)
      ensures Valid() && this.version == version && stream == []
      ensures this.seed1 == seed1 && this.seed2 == seed2
      ensures state == S12(seed1, seed2, 0, 0, 0, 0, 0, 0, 0, 0, 0, 0)
      ensures length == 0 && remainder == 0 && data == seq(192, _ => 0)
    {
      this.version := version;
      data := seq(192, _ => 0);
      state := S12(seed1, seed2, 0, 0, 0, 0, 0, 0, 0, 0, 0, 0);
      length := 0;
      remainder := 0;
      this.seed1 := seed1;
      this.seed2 := seed2;
      stream := [];
      absorbed := [];
    }

    /** `SpookyV::new`: the seeds are zero, and so is the whole state. */
    constructor New(version: Version)
      ensures Valid() && this.version == version && stream == []
      ensures seed1 == 0 && seed2 == 0
      ensures state == S12(0, 0, 0, 0, 0, 0, 0, 0, 0, 0, 0, 0)
      ensures length == 0 && remainder == 0 && data == seq(192, _ => 0)
    {
      this.version := version;
      data := seq(192, _ => 0);
      state := S12(0, 0, 0, 0, 0, 0, 0, 0, 0, 0, 0, 0);
      length := 0;
      remainder := 0;
      seed1 := 0;
      seed2 := 0;
      stream := [];
      absorbed := [];
    }

    /** `SpookyV::with_seed_128`: `with_seed` of the low and the high half of `seed`. */
    constructor WithSeed128(version: Version, seed: bv128)
      ensures Valid() && this.version == version && stream == []
      ensures seed1 == Low64(seed) && seed2 == High64(seed)
      ensures state == S12(Low64(seed), High64(seed), 0, 0, 0, 0, 0, 0, 0, 0, 0, 0)
      ensures length == 0 && remainder == 0 && data == seq(192, _ => 0)
    {
      this.version := version;
      data := seq(192, _ => 0);
      state := S12(Low64(seed), High64(seed), 0, 0, 0, 0, 0, 0, 0, 0, 0, 0);
      length := 0;
      remainder := 0;
      seed1 := Low64(seed);
      seed2 := High64(seed);
      stream := [];
      absorbed := [];
    }

    /**
     * `Hasher<u128>::write`. While the buffered bytes and the new ones stay
     * under 192, the bytes are only appended to the buffer. Otherwise the
     * state (the initial one if fewer than 192 bytes came before) absorbs
     * the buffer completed to two blocks, then every whole block of the
     * input; the bytes after the last block are buffered.
     */
    method Write(bytes: seq<byte>)
      requires Valid()
      modifies this
      ensures Valid() && seed1 == old(seed1) && seed2 == old(seed2)
      ensures stream == old(stream) + bytes && length == old(length) + |bytes|
      ensures old(remainder) + |bytes| < 192 ==> remainder == old(remainder) + |bytes| && state == old(state)
      ensures old(remainder) + |bytes| >= 192 ==> remainder == (old(remainder) + |bytes|) % 96
    {
      if |bytes| + remainder < 192 {
        WriteBuffered(bytes);
      } else {
        WriteMixing(bytes);
      }
    }

    /** The buffering path of `write`: append `bytes` to the buffer; the state stays. */
    method WriteBuffered(bytes: seq<byte>)
      requires Valid() && remainder + |bytes| < 192
      modifies this
      ensures Valid() && seed1 == old(seed1) && seed2 == old(seed2)
      ensures stream == old(stream) + bytes && length == old(length) + |bytes|
      ensures remainder == old(remainder) + |bytes| && state == old(state)
    {
      data := data[..remainder] + bytes + data[remainder + |bytes|..];
      length := length + |bytes|;
      remainder := remainder + |bytes|;
      stream := stream + bytes;
    }

    /**
     * The mixing path of `write`: complete the buffer to 192 bytes and mix
     * its two blocks (if it held any bytes), mix every whole block of the
     * rest, buffer the tail.
     */
    method WriteMixing(bytes: seq<byte>)
      requires Valid() && remainder + |bytes| >= 192
      modifies this
      ensures Valid() && seed1 == old(seed1) && seed2 == old(seed2)
      ensures stream == old(stream) + bytes && length == old(length) + |bytes|
      ensures remainder == (old(remainder) + |bytes|) % 96
    {
      var h := if length < 192 then Init12(state.w0, state.w1) else state;
      var mixed, buffer, rem := MixInput(h, data, remainder, bytes);
      ghost var all := data[..remainder] + bytes;
      MixingKeepsInv(data, state, length, remainder, seed1, seed2, stream, absorbed, bytes, h, mixed, buffer, rem);
      length, remainder, state, data := length + |bytes|, rem, mixed, buffer;
      absorbed, stream := absorbed + all[..Aligned(all)], stream + bytes;
    }

    /**
     * `Hasher<u128>::finish`: the short path while fewer than 192 bytes have
     * been written, otherwise `Final` of the state and the buffered bytes.
     * Either way it is SpookyHash of the whole stream, however the stream
     * was split into writes, because `Write` models the aligned branch of
     * the whole-block loop; the unaligned branch is `BlocksAsWritten`.
     */
    function Finish128(): (r: bv128)
      reads this
      requires Valid()
      ensures r == Hash128(version, seed1, seed2, stream)
    {
      if length < 192 then
        assert stream == data[..remainder];
        Short(version, state.w0, state.w1, data[..remainder])
      else
        assert stream[..|absorbed|] == absorbed && stream[|absorbed|..] == data[..remainder];
        FinalAnyCut(version, seed1, seed2, stream, |absorbed|);
        Final(version, state, data[..remainder])
    }

    /** `Hasher<u64>::finish`: the low 64 bits of the 128-bit digest. */
    function Finish64(): (r: bv64)
      reads this
      requires Valid()
      ensures r == Low64(Hash128(version, seed1, seed2, stream))
    {
      Low64(Finish128())
    }

    /** `Hasher<u32>::finish`: the low 32 bits of the 128-bit digest. */
    function Finish32(): (r: bv32)
      reads this
      requires Valid()
      ensures r == Low32(Hash128(version, seed1, seed2, stream))
    {
      Low32(Finish128())
    }
  }

  /**
   * The representation invariant of `Hasher`: `length` counts the stream,
   * which is the absorbed bytes followed by the `remainder` bytes at the
   * front of the 192-byte buffer `data`. Below 192 bytes nothing is
   * absorbed and `state` still holds the seeds in words 0 and 1; from 192
   * bytes on, `state` is the initial state after every absorbed block.
   */
  ghost predicate Inv(data: seq<byte>, state: S12, length: nat, remainder: nat,
                      seed1: bv64, seed2: bv64, stream: seq<byte>, absorbed: seq<byte>)
  {
    |data| == 192 && length == |stream| && remainder < 192 &&
    stream == absorbed + data[..remainder] &&
    if length < 192 then
      absorbed == [] && state.w0 == seed1 && state.w1 == seed2
    else
      |absorbed| % 96 == 0 && state == MixBlocks(Init12(seed1, seed2), absorbed)
  }

  /**
   * The mixing path of `write` keeps the invariant: starting from the
   * seeded state or the state reached so far, the hasher absorbs the whole
   * blocks of its buffered bytes followed by the input, and buffers the rest.
   */
  lemma MixingKeepsInv(data: seq<byte>, state: S12, length: nat, remainder: nat,
                       seed1: bv64, seed2: bv64, stream: seq<byte>, absorbed: seq<byte>,
                       bytes: seq<byte>, h: S12, mixed: S12, buffer: seq<byte>, rem: nat)
    requires Inv(data, state, length, remainder, seed1, seed2, stream, absorbed)
    requires remainder + |bytes| >= 192
    requires h == if length < 192 then Init12(state.w0, state.w1) else state
    requires var all := data[..remainder] + bytes;
      |buffer| == 192 && mixed == MixBlocks(h, all[..Aligned(all)]) &&
      rem == |all| - Aligned(all) && buffer[..rem] == all[Aligned(all)..]
    ensures var all := data[..remainder] + bytes;
      Inv(buffer, mixed, length + |bytes|, rem, seed1, seed2, stream + bytes, absorbed + all[..Aligned(all)])
    ensures rem == (remainder + |bytes|) % 96
  {
    var all := data[..remainder] + bytes;
    StartState(length < 192, state, seed1, seed2, absorbed);
    AbsorbAppend(Init12(seed1, seed2), absorbed, all);
  }

  /**
   * The mixing path of `write` on values: the buffered bytes are completed
   * to 192 and mixed as two blocks, then every whole block of the rest of
   * the input is mixed, and the bytes past the last whole block go to the
   * front of the buffer. Altogether `h` absorbs the whole blocks of the
   * buffered bytes followed by the input, and what is left is buffered.
   */
  method MixInput(h: S12, data: seq<byte>, remainder: nat, bytes: seq<byte>)
    returns (mixed: S12, buffer: seq<byte>, rem: nat)
    requires |data| == 192 && remainder < 192 && remainder + |bytes| >= 192
    ensures |buffer| == 192
    ensures var all := data[..remainder] + bytes;
      mixed == MixBlocks(h, all[..Aligned(all)]) && rem == |all| - Aligned(all) &&
      buffer[..rem] == all[Aligned(all)..]
  {
    var cur := h;
    var rest := bytes;
    buffer := data;
    ghost var full: seq<byte> := [];
    if remainder != 0 {
      var prefix := 192 - remainder;
      buffer := data[..remainder] + bytes[..prefix];
      cur := Mix(Block(buffer[..96]), cur);
      cur := Mix(Block(buffer[96..]), cur);
      rest := bytes[prefix..];
      full := buffer;
    }
    mixed := MixAligned(cur, rest);
    var tail := rest[|rest| / 96 * 96..];
    buffer := tail + buffer[|tail|..];
    rem := |tail|;
    MixingPath(h, data[..remainder], bytes, full, cur, rest, mixed);
  }

  /**
   * The bookkeeping of `MixInput`: the completed buffer `full` (if any bytes
   * were buffered) and the whole blocks of `rest` are exactly the whole
   * blocks of the buffered bytes followed by the input.
   */
  lemma {:induction false} MixingPath(h0: S12, buffered: seq<byte>, bytes: seq<byte>,
                   full: seq<byte>, h: S12, rest: seq<byte>, mixed: S12)
    requires |buffered| < 192 && |buffered| + |bytes| >= 192
    requires buffered == [] ==> full == [] && rest == bytes && h == h0
    requires buffered != [] ==>
      full == buffered + bytes[..192 - |buffered|] && rest == bytes[192 - |buffered|..] &&
      h == Mix(Block(full[96..]), Mix(Block(full[..96]), h0))
    requires mixed == MixBlocks(h, rest[..|rest| / 96 * 96])
    ensures var all := buffered + bytes;
      mixed == MixBlocks(h0, all[..Aligned(all)]) && rest[|rest| / 96 * 96..] == all[Aligned(all)..]
  {
    var all := buffered + bytes;
    var k := |rest| / 96 * 96;
    assert h == MixBlocks(h0, full) by {
      if buffered != [] {
        TwoBlocks(h0, full);
      } else {
        assert MixBlocks(h0, []) == h0;
      }
    }
    assert all[..Aligned(all)] == full + rest[..k] && all[Aligned(all)..] == rest[k..] by {
      SplitAligned(buffered, bytes, full, rest);
    }
    MixBlocksAppend(h0, full, rest[..k]);
  }

  /** Absorbing a 192-byte buffer is mixing its two blocks in order. */
  lemma {:induction false} TwoBlocks(h0: S12, full: seq<byte>)
    requires |full| == 192
    ensures MixBlocks(h0, full) == Mix(Block(full[96..]), Mix(Block(full[..96]), h0))
  {
    MixTwoBlocks(h0, [], full);
    assert [] + full == full;
    assert MixBlocks(h0, []) == h0;
  }

  /**
   * The whole blocks of the buffered bytes followed by the input are the
   * completed buffer followed by the whole blocks of the rest; the bytes
   * past them are the bytes past the whole blocks of the rest.
   */
  lemma SplitAligned(buffered: seq<byte>, bytes: seq<byte>, full: seq<byte>, rest: seq<byte>)
    requires |buffered| < 192 && |buffered| + |bytes| >= 192
    requires buffered == [] ==> full == [] && rest == bytes
    requires buffered != [] ==> full == buffered + bytes[..192 - |buffered|] && rest == bytes[192 - |buffered|..]
    ensures var all := buffered + bytes; var k := |rest| / 96 * 96;
      Aligned(all) == |full| + k && all[..Aligned(all)] == full + rest[..k] && all[Aligned(all)..] == rest[k..]
  {
    var all := buffered + bytes;
    var k := |rest| / 96 * 96;
    BlockCut(|rest|);
    if buffered != [] {
      ShiftMod(|rest|);
    }
    assert all == full + rest;
    assert Aligned(all) == |full| + k;
  }

  /**
   * The state the mixing path starts from is the seeded state after the
   * bytes absorbed so far: freshly seeded on a hasher's first long write.
   */
  lemma StartState(short: bool, state: S12, seed1: bv64, seed2: bv64, absorbed: seq<byte>)
    requires short ==> absorbed == [] && state.w0 == seed1 && state.w1 == seed2
    requires !short ==> state == MixBlocks(Init12(seed1, seed2), absorbed)
    ensures (if short then Init12(state.w0, state.w1) else state) == MixBlocks(Init12(seed1, seed2), absorbed)
  {
    if short {
      assert MixBlocks(Init12(seed1, seed2), []) == Init12(seed1, seed2);
    }
  }

  /**
   * Absorbing the whole blocks of `all` after `absorbed` is absorbing them
   * into the state `absorbed` led to; the rest of `all` is what is left over.
   */
  lemma {:induction false} AbsorbAppend(init: S12, absorbed: seq<byte>, all: seq<byte>)
    requires |absorbed| % 96 == 0
    ensures |absorbed + all[..Aligned(all)]| % 96 == 0
    ensures MixBlocks(init, absorbed + all[..Aligned(all)]) == MixBlocks(MixBlocks(init, absorbed), all[..Aligned(all)])
    ensures absorbed + all == absorbed + all[..Aligned(all)] + all[Aligned(all)..]
    ensures MixBlocks(init, []) == init
  {
    AddAligned(|absorbed|, Aligned(all));
    MixBlocksAppend(init, absorbed, all[..Aligned(all)]);
    assert all == all[..Aligned(all)] + all[Aligned(all)..];
  }

  /** Cutting `n` bytes after its whole blocks leaves `n % 96` bytes. */
  lemma BlockCut(n: nat)
    ensures n / 96 * 96 <= n && (n / 96 * 96) % 96 == 0 && n - n / 96 * 96 == n % 96
  {
    DivModUnique(n, 96, n / 96, n % 96);
  }

  /** Block-aligned lengths add up to a block-aligned length. */
  lemma AddAligned(a: nat, b: nat)
    requires a % 96 == 0 && b % 96 == 0
    ensures (a + b) % 96 == 0
  {
    DivModUnique(a + b, 96, a / 96 + b / 96, 0);
  }

  /** Two blocks more leave the count past whole blocks as it was. */
  lemma ShiftMod(n: nat)
    ensures (n + 192) % 96 == n % 96
  {
    DivModUnique(n + 192, 96, n / 96 + 2, n % 96);
  }

  /** The aligned block loop of `write`: `h` absorbs every whole 96-byte block of `rest`. */
  method MixAligned(h: S12, rest: seq<byte>) returns (r: S12)
    ensures r == MixBlocks(h, rest[..|rest| / 96 * 96])
  {
    var blocks := |rest| / 96;
    r := h;
    for i := 0 to blocks
      invariant r == MixBlocks(h, rest[..96 * i])
    {
      r := Mix(Block(rest[96 * i..96 * i + 96]), r);
      MixBlocksSnoc(h, rest[..96 * i], rest[96 * i..96 * i + 96]);
      assert rest[..96 * (i + 1)] == rest[..96 * i] + rest[96 * i..96 * i + 96];
    }
  }

  /** `SpookyBuildHasherV`: the version and the two seeds of the hashers it builds. */
  datatype BuildHasher = BuildHasher(version: Version, seed1: bv64, seed2: bv64)
  {
    /** `build_hasher`: a fresh `SpookyV::with_seed` of the stored seeds. */
    method Build() returns (h: Hasher)
      ensures fresh(h) && h.Valid() && h.stream == []
      ensures h.version == version && h.seed1 == seed1 && h.seed2 == seed2
    {
      h := new Hasher.WithSeed(version, seed1, seed2);
    }
  }

  /** `SpookyBuildHasherV::new`: both seeds zero, which is `with_seed_128(0)`. */
  function NewBuildHasher(v: Version): (b: BuildHasher)
    ensures b.version == v && b.seed1 == 0 && b.seed2 == 0
    ensures b == BuildHasherWithSeed128(v, 0)
  {
    BuildHasher(v, 0, 0)
  }

  /** `SpookyBuildHasherV::with_seed_128`: the seeds are the halves of `seed`, low half first. */
  function BuildHasherWithSeed128(v: Version, seed: bv128): (b: BuildHasher)
    ensures b.version == v && Pack(b.seed1, b.seed2) == seed
  {
    PackHalves(seed);
    BuildHasher(v, Low64(seed), High64(seed))
  }

  /** `SpookyDefaultBuildHasherV`: builds hashers with the default (zero) seed. */
  datatype DefaultBuildHasher = DefaultBuildHasher(version: Version)
  {
    /** `build_hasher`: a fresh `SpookyV::new`. */
    method Build() returns (h: Hasher)
      ensures fresh(h) && h.Valid() && h.stream == []
      ensures h.version == version && h.seed1 == 0 && h.seed2 == 0
    {
      h := new Hasher.New(version);
    }
  }

  /**
   * `hash_one` of a byte slice with the default seed, as the crate's tests
   * hash their inputs: one `write` per byte, then the 32-bit `finish`.
   */
  method HashBytes(v: Version, s: seq<byte>) returns (r: bv32)
    ensures r == Low32(Hash128(v, 0, 0, s))
  {
    var h := DefaultBuildHasher(v).Build();
    for i := 0 to |s|
      invariant fresh(h) && h.Valid() && h.version == v && h.seed1 == 0 && h.seed2 == 0
      invariant h.stream == s[..i]
    {
      h.Write([s[i]]);
      TakeSnoc(s, i);
    }
    assert s[..|s|] == s;
    r := h.Finish32();
  }

  /** The V1 known answer for the empty input. */
  lemma KnownAnswerV1Empty()
    ensures Low32(Hash128(V1, 0, 0, [])) == 0xa24295ec
  {
    var h := H4(0, 0, 0xdeadbeefdeadbeef, 0xdeadbeefdeadbeef);
    assert ShortChunks(h, []) == h;
    assert Fallthrough(h.(h3 := 0), []) == H4(0, 0, 0xbd5b7ddfbd5b7dde, 0xdeadbeefdeadbeef);
  }

  /** The V2 known answer for the empty input. */
  lemma KnownAnswerV2Empty()
    ensures Low32(Hash128(V2, 0, 0, [])) == 0x6bf50919
  {
    var h := H4(0, 0, 0xdeadbeefdeadbeef, 0xdeadbeefdeadbeef);
    assert ShortChunks(h, []) == h;
    assert Fallthrough(h, []) == H4(0, 0, 0xbd5b7ddfbd5b7dde, 0xbd5b7ddfbd5b7dde);
  }

  /** The V1 known answer for the one byte 0x80. */
  lemma KnownAnswerV1Byte()
    ensures Low32(Hash128(V1, 0, 0, [0x80])) == 0xfe3a05ce
  {
    var msg: seq<byte> := [0x80];
    assert msg[..0] == [] && msg[0..] == msg;
    assert Hash128(V1, 0, 0, msg) == Short(V1, 0, 0, msg);
    var h := H4(0, 0, 0xdeadbeefdeadbeef, 0xdeadbeefdeadbeef);
    assert ShortChunks(h, []) == h;
    assert U64(1).RotateLeft(56) == 0x100000000000000;
    assert Fallthrough(h.(h3 := 0x100000000000000), msg) == H4(0, 0, 0xdeadbeefdeadbf6f, 0x100000000000000);
  }

  /** The V2 known answer for the one byte 0x80. */
  lemma KnownAnswerV2Byte()
    ensures Low32(Hash128(V2, 0, 0, [0x80])) == 0x70de1d26
  {
    var msg: seq<byte> := [0x80];
    assert msg[..0] == [] && msg[0..] == msg;
    assert Hash128(V2, 0, 0, msg) == Short(V2, 0, 0, msg);
    var h := H4(0, 0, 0xdeadbeefdeadbeef, 0xdeadbeefdeadbeef);
    assert ShortChunks(h, []) == h;
    assert U64(1).RotateLeft(56) == 0x100000000000000;
    assert Fallthrough(h.(h3 := 0xdfadbeefdeadbeef), msg) == H4(0, 0, 0xdeadbeefdeadbf6f, 0xdfadbeefdeadbeef);
  }

  /** The fallthrough table on the twelve bytes 0x80 to 0x8b: label 12 adds two words. */
  lemma TwelveFallthrough()
    ensures Fallthrough(H4(0, 0, 0xdeadbeefdeadbeef, 0xc00000000000000), [0x80, 0x81, 0x82, 0x83, 0x84, 0x85, 0x86, 0x87, 0x88, 0x89, 0x8a, 0x8b])
         == H4(0, 0, 0x663444746230406f, 0xc0000008b8a8988)
  {
    var t: seq<byte> := [0x80, 0x81, 0x82, 0x83, 0x84, 0x85, 0x86, 0x87, 0x88, 0x89, 0x8a, 0x8b];
    assert t[..8] == [0x80, 0x81, 0x82, 0x83, 0x84, 0x85, 0x86, 0x87];
    assert t[8..12] == [0x88, 0x89, 0x8a, 0x8b];
    assert LeWord([0x80, 0x81, 0x82, 0x83, 0x84, 0x85, 0x86, 0x87]) == 0x8786858483828180;
    assert LeWord([0x88, 0x89, 0x8a, 0x8b]) == 0x8b8a8988;
  }

  /** The first two words of a message given as two 8-byte pieces. */
  lemma TwoWords(a: seq<byte>, b: seq<byte>)
    requires |a| == 8 && |b| == 8
    ensures Word(a + b, 0) == LeWord(a) && Word(a + b, 1) == LeWord(b)
  {
    assert (a + b)[0..8] == a && (a + b)[8..16] == b;
  }

  /** `short_end` of the state that the twelve bytes 0x80 to 0x8b leave. */
  lemma TwelveShortEnd()
    ensures ShortEnd(H4(0, 0, 0x663444746230406f, 0xc0000008b8a8988))
         == H4(0xb755fb1dd8f28a02, 0x45e09e18f1d71330, 0x743d4e535402fcdf, 0x62753c4d07afd412)
  {}

  /** `short_mix` of the half chunk 0x80 to 0x8f. */
  lemma SixteenShortMix()
    ensures ShortMix(H4(0, 0, 0xdeadbeefdeadbeef + 0x8786858483828180, 0xdeadbeefdeadbeef + 0x8f8e8d8c8b8a8988))
         == H4(0x615aa19d5af14493, 0x36bb6c130a2c90b3, 0xe1c5cb2010be3c1b, 0xf320ece44f4bbf1e)
  {}

  /** `short_end` of the state that the sixteen bytes 0x80 to 0x8f leave. */
  lemma SixteenShortEnd()
    ensures ShortEnd(H4(0x615aa19d5af14493, 0x36bb6c130a2c90b3, 0xc0738a0fef6bfb0a, 0xeeadbeefdeadbeef))
         == H4(0x642b9a179cd96a73, 0x40120b81b605dee4, 0x2e91d0ea6091ccb6, 0x2fab20a4c3dc90d0)
  {}

  /** The short path of V1 on the twelve bytes 0x80 to 0x8b. */
  lemma ShortOfTwelve(msg: seq<byte>)
    requires msg == [0x80, 0x81, 0x82, 0x83, 0x84, 0x85, 0x86, 0x87, 0x88, 0x89, 0x8a, 0x8b]
    ensures Low32(Pack(ShortEnd(Fallthrough(H4(0, 0, 0xdeadbeefdeadbeef, 0xc00000000000000), msg)).h0, 0)) == 0xd8f28a02
  {
    TwelveFallthrough();
    TwelveShortEnd();
  }

  /** The V1 known answer for the twelve bytes 0x80 to 0x8b: the fallthrough table's label 12. */
  lemma KnownAnswerV1Twelve(msg: seq<byte>)
    requires msg == [0x80, 0x81, 0x82, 0x83, 0x84, 0x85, 0x86, 0x87, 0x88, 0x89, 0x8a, 0x8b]
    ensures Low32(Hash128(V1, 0, 0, msg)) == 0xd8f28a02
  {
    assert Hash128(V1, 0, 0, msg) == Short(V1, 0, 0, msg);
    assert msg[..0] == [] && msg[0..] == msg;
    var h := H4(0, 0, 0xdeadbeefdeadbeef, 0xdeadbeefdeadbeef);
    assert ShortChunks(h, []) == h;
    assert U64(12).RotateLeft(56) == 0xc00000000000000;
    ShortOfTwelve(msg);
  }

  /** The short path of V1 on the sixteen bytes 0x80 to 0x8f, given as two words. */
  lemma ShortOfSixteen(a: seq<byte>, b: seq<byte>)
    requires a == [0x80, 0x81, 0x82, 0x83, 0x84, 0x85, 0x86, 0x87] && b == [0x88, 0x89, 0x8a, 0x8b, 0x8c, 0x8d, 0x8e, 0x8f]
    ensures Low32(Pack(ShortEnd(Fallthrough(ShortHalf(H4(0, 0, ScConst, ScConst), a + b)
                                              .(h3 := 0x1000000000000000), [])).h0, 0)) == 0x9cd96a73
  {
    TwoWords(a, b);
    assert LeWord([0x80, 0x81, 0x82, 0x83, 0x84, 0x85, 0x86, 0x87]) == 0x8786858483828180;
    assert LeWord([0x88, 0x89, 0x8a, 0x8b, 0x8c, 0x8d, 0x8e, 0x8f]) == 0x8f8e8d8c8b8a8988;
    SixteenShortMix();
    FallthroughEmpty(H4(0x615aa19d5af14493, 0x36bb6c130a2c90b3, 0xe1c5cb2010be3c1b, 0x1000000000000000));
    SixteenShortEnd();
  }

  /** Sixteen bytes under V1 and zero seeds: one half chunk, the length in h3, then label 0 of the table. */
  lemma SixteenPath(msg: seq<byte>)
    requires |msg| == 16
    ensures Hash128(V1, 0, 0, msg)
         == Pack(ShortEnd(Fallthrough(ShortHalf(H4(0, 0, ScConst, ScConst), msg).(h3 := 0x1000000000000000), [])).h0,
                 ShortEnd(Fallthrough(ShortHalf(H4(0, 0, ScConst, ScConst), msg).(h3 := 0x1000000000000000), [])).h1)
  {
    assert |msg| / 32 * 32 == 0 && |msg| % 32 == 16;
    assert msg[..0] == [] && msg[0..0 + 16] == msg && msg[16..] == [];
    assert ShortChunks(H4(0, 0, ScConst, ScConst), []) == H4(0, 0, ScConst, ScConst);
    SixteenLength();
  }

  /** The length word of a 16-byte message, `(16 as u64).rotate_left(56)`. */
  lemma SixteenLength()
    ensures U64(16).RotateLeft(56) == 0x1000000000000000
  {
    assert U64(2) == 2;
    assert U64(4) == 4;
    assert U64(8) == 8;
    assert U64(16) == 16;
  }

  /** The V1 known answer for the sixteen bytes 0x80 to 0x8f: one half chunk, then the table's label 0. */
  lemma KnownAnswerV1Sixteen(a: seq<byte>, b: seq<byte>)
    requires a == [0x80, 0x81, 0x82, 0x83, 0x84, 0x85, 0x86, 0x87] && b == [0x88, 0x89, 0x8a, 0x8b, 0x8c, 0x8d, 0x8e, 0x8f]
    ensures Low32(Hash128(V1, 0, 0, a + b)) == 0x9cd96a73
  {
    SixteenPath(a + b);
    ShortOfSixteen(a, b);
  }

  /**
   * The whole-block loop of `write` as written: when the input starts at an
   * 8-byte-aligned address every whole block of `rest` is mixed into `h`; otherwise
   * each block is only copied into the buffer and never mixed, so the state
   * comes out as it went in.
   */
  function BlocksAsWritten(h: S12, rest: seq<byte>, aligned: bool): (r: S12)
    ensures aligned ==> r == MixBlocks(h, rest[..|rest| / 96 * 96])
    ensures !aligned ==> r == h
  {
    if aligned then MixBlocks(h, rest[..|rest| / 96 * 96]) else h
  }

  /** A block of zero bytes reads as twelve zero words. */
  lemma ZeroBlock(zeros: seq<byte>)
    requires zeros == seq(96, _ => 0)
    ensures Block(zeros) == S12(0, 0, 0, 0, 0, 0, 0, 0, 0, 0, 0, 0)
  {
    assert LeWord([0, 0, 0, 0, 0, 0, 0, 0]) == 0;
    forall j | 0 <= j < 12
      ensures Word(zeros, j) == 0
    {
      assert zeros[8 * j..8 * j + 8] == [0, 0, 0, 0, 0, 0, 0, 0];
    }
    assert BlockAt(zeros, 0) == S12(0, 0, 0, 0, 0, 0, 0, 0, 0, 0, 0, 0);
    assert BlockAt(zeros, 3) == BlockAt(zeros, 2) == BlockAt(zeros, 1) == BlockAt(zeros, 0);
  }

  /**
   * The first whole block of a write is lost on the unaligned branch: from
   * the initial state of the zero seeds, a block of 96 zero bytes moves the
   * state when it is mixed, so leaving the state as it was gives a
   * different state, and the finished hash no longer depends on the block.
   */
  lemma UnalignedBlockLost()
    ensures var zeros: seq<byte> := seq(96, _ => 0);
      BlocksAsWritten(Init12(0, 0), zeros, false) != BlocksAsWritten(Init12(0, 0), zeros, true)
  {
    var zeros: seq<byte> := seq(96, _ => 0);
    ZeroBlock(zeros);
    assert zeros[..96] == zeros && zeros[96..] == [];
    assert MixBlocks(Init12(0, 0), zeros) == Mix(S12(0, 0, 0, 0, 0, 0, 0, 0, 0, 0, 0, 0), Init12(0, 0));
    assert Mix(S12(0, 0, 0, 0, 0, 0, 0, 0, 0, 0, 0, 0), Init12(0, 0)).w0 == 0x3a25e7500925e5d1;
  }
}

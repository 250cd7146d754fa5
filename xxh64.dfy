/**
 * The `Xxh64` hasher of the anyhash crate: the XXH64 algorithm of the xxHash
 * specification. Four 64-bit lanes absorb the input in 32-byte stripes, a
 * 32-byte buffer holds the bytes of the stripe not yet complete, and a
 * counter holds the total length. `finish` merges the lanes, folds in the
 * buffered tail and scrambles the result (the avalanche).
 *
 * All arithmetic is wrapping 64-bit arithmetic, so words are `bv64`. The host
 * is little-endian: the lanes read from the buffer are little-endian words.
 */
module Xxh64 {
  import opened Bytes

  /** `Xxh64::round`: one lane absorbs one 64-bit word of input. */
  function Round(acc: bv64, lane: bv64): bv64
  {
    RoundAt(acc, lane, 3)
  }

  /**
   * The arithmetic of `Round`, run after a countdown of `n`, so that proofs
   * about stripes and buffers never unfold the multiplications.
   */
  function RoundAt(acc: bv64, lane: bv64, n: nat): bv64
  {
    if n > 0 then RoundAt(acc, lane, n - 1) else
    (acc + lane * 0xc2b2ae3d27d4eb4f).RotateLeft(31) * 0x9e3779b185ebca87
  }

  /** `Xxh64::merge_accumulator`: the running result absorbs one lane. */
  function Merge(acc: bv64, n: bv64): bv64
  {
    (acc ^ Round(0, n)) * 0x9e3779b185ebca87 + 0x85ebca77c2b2ae63
  }

  /** The four accumulator lanes, `acc: [u64; 4]`. */
  type Lanes = s: seq<bv64> | |s| == 4 witness [0, 0, 0, 0]

  /** The lanes `with_seed(seed)` starts from. */
  function InitLanes(seed: bv64): Lanes
  {
    [seed + 0x9e3779b185ebca87 + 0xc2b2ae3d27d4eb4f, seed + 0xc2b2ae3d27d4eb4f, seed, seed - 0x9e3779b185ebca87]
  }

  /** Lane `i` of a full buffer: the little-endian word at bytes 8i..8i+8. */
  function StripeWord(block: seq<byte>, i: nat): bv64
    requires |block| == 32 && i < 4
  {
    LeWord(block[8 * i..8 * i + 8])
  }

  /** The lanes after a full 32-byte buffer: lane i takes a `Round` with word i. */
  function Stripe(l: Lanes, block: seq<byte>): Lanes
    requires |block| == 32
  {
    [Round(l[0], StripeWord(block, 0)), Round(l[1], StripeWord(block, 1)),
     Round(l[2], StripeWord(block, 2)), Round(l[3], StripeWord(block, 3))]
  }

  /** Lanes that each took their `Round` with the words of `block` are its `Stripe`. */
  lemma StripeLanes(before: Lanes, after: Lanes, block: seq<byte>)
    requires |block| == 32
    requires forall j :: 0 <= j < 4 ==> after[j] == Round(before[j], StripeWord(block, j))
    ensures after == Stripe(before, block)
  {
    assert after[0] == Round(before[0], StripeWord(block, 0));
    assert after[1] == Round(before[1], StripeWord(block, 1));
    assert after[2] == Round(before[2], StripeWord(block, 2));
    assert after[3] == Round(before[3], StripeWord(block, 3));
  }

  /** The lanes after every whole 32-byte stripe of `s`, first stripe first. */
  function Stripes(l: Lanes, s: seq<byte>): Lanes
    decreases |s|
  {
    if |s| < 32 then l else Stripes(Stripe(l, s[..32]), s[32..])
  }

  /** Absorbing a stripe after stripe-aligned input is one more `Stripe`. */
  lemma {:induction false} StripesSnoc(l: Lanes, p: seq<byte>, block: seq<byte>)
    requires |p| % 32 == 0 && |block| == 32
    ensures Stripes(l, p + block) == Stripe(Stripes(l, p), block)
    decreases |p|
  {
    if p == [] {
      assert p + block == block && block[32..] == [] && block[..32] == block;
    } else {
      assert (p + block)[..32] == p[..32] && (p + block)[32..] == p[32..] + block;
      StripesSnoc(Stripe(l, p[..32]), p[32..], block);
    }
  }

  /** 2^64: `total_len` is a `u64` and wraps around at this count. */
  const TotalMod := 0x1_0000_0000_0000_0000

  /** The start of `finish` for at least 32 bytes: rotated lanes summed, then each lane merged in. */
  function Converge(l: Lanes): bv64
  {
    var a := l[0].RotateLeft(1) + l[1].RotateLeft(7) + l[2].RotateLeft(12) + l[3].RotateLeft(18);
    Merge(Merge(Merge(Merge(a, l[0]), l[1]), l[2]), l[3])
  }

  /** One buffered 8-byte word folded into the result. */
  function Word8Step(acc: bv64, w: bv64): bv64
  {
    (acc ^ Round(0, w)).RotateLeft(27) * 0x9e3779b185ebca87 + 0x85ebca77c2b2ae63
  }

  /** The one 4-byte word folded into the result. */
  function Word4Step(acc: bv64, w: bv64): bv64
  {
    (acc ^ (w * 0x9e3779b185ebca87)).RotateLeft(23) * 0xc2b2ae3d27d4eb4f + 0x165667b19e3779f9
  }

  /** One leftover byte folded into the result. */
  function ByteStep(acc: bv64, b: byte): bv64
  {
    (acc ^ ((b as bv64) * 0x27d4eb2f165667c5)).RotateLeft(11) * 0x9e3779b185ebca87
  }

  /** The leftover bytes, one `ByteStep` each, first byte first. */
  function TailBytes(acc: bv64, t: seq<byte>): bv64
    decreases |t|
  {
    if t == [] then acc else TailBytes(ByteStep(acc, t[0]), t[1..])
  }

  /**
   * The buffered tail folded into the result: every whole 8-byte word, then
   * one 4-byte word if at least four bytes remain, then the single bytes.
   */
  function TailFold(acc: bv64, t: seq<byte>): bv64
    decreases |t|
  {
    if |t| >= 8 then TailFold(Word8Step(acc, LeWord(t[..8])), t[8..])
    else if |t| >= 4 then TailBytes(Word4Step(acc, LeWord(t[..4])), t[4..])
    else TailBytes(acc, t)
  }

  /** The final scramble of `finish`. */
  function Avalanche(acc: bv64): bv64
  {
    var a := (acc ^ (acc >> 33)) * 0xc2b2ae3d27d4eb4f;
    var b := (a ^ (a >> 29)) * 0x165667b19e3779f9;
    b ^ (b >> 32)
  }

  /**
   * The value `finish` starts from: lane 2 plus P5 when the `u64` total is
   * below 32, the merged lanes otherwise.
   */
  function Start(l: Lanes, total: nat): bv64
  {
    if total % TotalMod < 32 then l[2] + 0x27d4eb2f165667c5 else Converge(l)
  }

  /** The digest of a state: the lanes, the total length and the buffered tail. */
  function Final(l: Lanes, total: nat, tail: seq<byte>): bv64
  {
    Avalanche(TailFold(Start(l, total) + U64(total), tail))
  }

  /** The number of bytes of `s` that whole stripes cover. */
  function Aligned(s: seq<byte>): (k: nat)
    ensures k <= |s| && k % 32 == 0 && |s| - k < 32
  {
    |s| - |s| % 32
  }

  /** A stripe-aligned cut less than a stripe from the end is where `Aligned` cuts. */
  lemma AlignedAt(s: seq<byte>, k: nat)
    requires k <= |s| && k % 32 == 0 && |s| - k < 32
    ensures Aligned(s) == k
  {
    DivModUnique(|s|, 32, k / 32, |s| - k);
  }

  /** One more stripe keeps a length stripe-aligned. */
  lemma NextStripe(k: nat)
    requires k % 32 == 0
    ensures (k + 32) % 32 == 0
  {}

  lemma Associative(a: seq<byte>, b: seq<byte>, c: seq<byte>)
    ensures (a + b) + c == a + (b + c)
  {}

  /** XXH64 of the byte string `s` with the given seed. */
  function Digest(seed: bv64, s: seq<byte>): bv64
  {
    Final(Stripes(InitLanes(seed), s[..Aligned(s)]), |s|, s[Aligned(s)..])
  }

  /** Below 32 bytes no stripe is absorbed: the digest is taken from the initial lanes. */
  lemma ShortInput(seed: bv64, s: seq<byte>)
    requires |s| < 32
    ensures Digest(seed, s) == Final(InitLanes(seed), |s|, s)
  {
    assert Aligned(s) == 0 && s[..0] == [] && s[0..] == s;
  }

  /**
   * The lanes have absorbed every whole stripe of `stream` and `buf` holds
   * the rest, fewer than 32 bytes.
   */
  ghost predicate Inv(seed: bv64, stream: seq<byte>, lanes: seq<bv64>, buf: seq<byte>)
  {
    |buf| < 32 && buf == stream[Aligned(stream)..] &&
    lanes == Stripes(InitLanes(seed), stream[..Aligned(stream)])
  }

  /** Bytes that leave the buffer short of a stripe are only buffered. */
  lemma BufferKeepsInv(seed: bv64, stream: seq<byte>, lanes: seq<bv64>, buf: seq<byte>, taken: seq<byte>)
    requires Inv(seed, stream, lanes, buf) && |buf + taken| < 32
    ensures Inv(seed, stream + taken, lanes, buf + taken)
  {
    var prefix := stream[..Aligned(stream)];
    assert stream == prefix + buf;
    Associative(prefix, buf, taken);
    AlignedAt(stream + taken, |prefix|);
    assert (stream + taken)[..|prefix|] == prefix;
  }

  /** Bytes that fill the buffer complete a stripe: the lanes absorb it and the buffer empties. */
  lemma FillKeepsInv(seed: bv64, stream: seq<byte>, lanes: seq<bv64>, buf: seq<byte>, taken: seq<byte>, after: seq<bv64>)
    requires Inv(seed, stream, lanes, buf) && |buf + taken| == 32 && |after| == 4
    requires forall j :: 0 <= j < 4 ==> after[j] == Round(lanes[j], StripeWord(buf + taken, j))
    ensures Inv(seed, stream + taken, after, [])
  {
    var prefix, block, s := stream[..Aligned(stream)], buf + taken, stream + taken;
    var init := InitLanes(seed);
    assert s == prefix + block by {
      assert stream == prefix + buf;
      Associative(prefix, buf, taken);
    }
    assert |s| % 32 == 0 by {
      NextStripe(|prefix|);
    }
    assert after == Stripes(init, s) by {
      StripeLanes(lanes, after, block);
      StripesSnoc(init, prefix, block);
    }
    EmptyBufferInv(seed, s, after);
  }

  /** After stripe-aligned input the buffer is empty and the lanes have absorbed everything. */
  lemma EmptyBufferInv(seed: bv64, s: seq<byte>, lanes: seq<bv64>)
    requires |s| % 32 == 0 && lanes == Stripes(InitLanes(seed), s)
    ensures Inv(seed, s, lanes, [])
  {
    AlignedAt(s, |s|);
    assert s[..|s|] == s;
  }

  /** The bytes `write` took and the bytes it left make up its input. */
  lemma TakenRest(stream: seq<byte>, bytes: seq<byte>, taken: seq<byte>, rest: seq<byte>)
    requires |rest| <= |bytes| && taken == bytes[..|bytes| - |rest|] && rest == bytes[|bytes| - |rest|..]
    ensures stream + bytes == (stream + taken) + rest
  {
    assert bytes == taken + rest;
  }

  /** An `Xxh64` hasher: its fields `acc`, `buffer`, `buffer_len` and `total_len`. */
  class Hasher {
    const acc: array<bv64>
    const buffer: array<byte>
    var bufferLen: nat
    /** `total_len`, kept as the exact count; `Final` reads it modulo 2^64. */
    var totalLen: nat
    /** The seed the hasher was created with. */
    ghost var seed: bv64
    /** Every byte written so far, in order. */
    ghost var stream: seq<byte>

    /** The representation invariant `Inv` of the lanes and the buffered bytes. */
    ghost predicate Absorbed()
      reads this, acc, buffer
    {
      acc.Length == 4 && buffer.Length == 32 && bufferLen < 32 &&
      Inv(seed, stream, acc[..], buffer[..bufferLen])
    }

    /** Every byte absorbed or buffered, and `totalLen` counts them. */
    ghost predicate Valid()
      reads this, acc, buffer
    {
      Absorbed() && totalLen == |stream|
    }

    /** `Xxh64::with_seed`. */
    constructor WithSeed(seed: bv64)
      ensures Valid() && this.seed == seed && stream == []
      ensures acc[..] == InitLanes(seed) && bufferLen == 0 && totalLen == 0
      ensures fresh(acc) && fresh(buffer)
    {
      var l := InitLanes(seed);
      acc := new bv64[4] (i requires 0 <= i < 4 => l[i]);
      buffer := new byte[32];
      bufferLen := 0;
      totalLen := 0;
      this.seed := seed;
      stream := [];
      new;
      assert acc[..] == l;
    }

    /** `Xxh64::new`: seed 0. */
    constructor New()
      ensures Valid() && seed == 0 && stream == []
      ensures acc[..] == InitLanes(0) && bufferLen == 0 && totalLen == 0
      ensures fresh(acc) && fresh(buffer)
    {
      var l := InitLanes(0);
      acc := new bv64[4] (i requires 0 <= i < 4 => l[i]);
      buffer := new byte[32];
      bufferLen := 0;
      totalLen := 0;
      seed := 0;
      stream := [];
      new;
      assert acc[..] == l;
    }

    /**
     * `fill_buffer`: move as many bytes as fit from the front of `bytes` to
     * the end of the buffer; `rest` is what is left and `full` says whether
     * the buffer now holds 32 bytes.
     */
    method FillBuffer(bytes: seq<byte>) returns (full: bool, rest: seq<byte>)
      requires buffer.Length == 32 && bufferLen <= 32
      modifies this`bufferLen, buffer
      ensures var n := if |bytes| < 32 - old(bufferLen) then |bytes| else 32 - old(bufferLen);
        bufferLen == old(bufferLen) + n && rest == bytes[n..] &&
        buffer[..bufferLen] == old(buffer[..bufferLen]) + bytes[..n]
      ensures full <==> bufferLen == 32
    {
      var n := if |bytes| < 32 - bufferLen then |bytes| else 32 - bufferLen;
      for k := 0 to n
        invariant bufferLen == old(bufferLen)
        invariant buffer[..bufferLen + k] == old(buffer[..bufferLen]) + bytes[..k]
      {
        buffer[bufferLen + k] := bytes[k];
        assert buffer[..bufferLen + k + 1] == buffer[..bufferLen + k] + [bytes[k]];
        assert bytes[..k + 1] == bytes[..k] + [bytes[k]];
      }
      bufferLen := bufferLen + n;
      rest := bytes[n..];
      full := bufferLen == 32;
    }

    /** The loop of `write` over a full buffer: lane i takes a `Round` with buffered word i. */
    method AbsorbBuffer()
      requires acc.Length == 4 && buffer.Length == 32
      modifies acc
      ensures forall j :: 0 <= j < 4 ==> acc[j] == Round(old(acc[j]), StripeWord(buffer[..], j))
    {
      for i := 0 to 4
        invariant forall j :: 0 <= j < i ==> acc[j] == Round(old(acc[j]), StripeWord(buffer[..], j))
        invariant forall j :: i <= j < 4 ==> acc[j] == old(acc[j])
      {
        acc[i] := Round(acc[i], StripeWord(buffer[..], i));
      }
    }

    /**
     * `HasherWrite::write`: count the bytes, then buffer them; each time the
     * buffer fills, the lanes absorb it and it empties.
     */
    method Write(bytes: seq<byte>)
      requires Valid()
      modifies this, acc, buffer
      ensures Valid() && seed == old(seed) && stream == old(stream) + bytes
      ensures totalLen == old(totalLen) + |bytes|
    {
      totalLen := totalLen + |bytes|;
      var rest := bytes;
      while rest != []
        invariant Absorbed() && seed == old(seed) && old(stream) + bytes == stream + rest
        invariant totalLen == |old(stream) + bytes|
        decreases |rest|
      {
        rest := FillAndAbsorb(rest);
      }
    }

    /**
     * One turn of the loop of `write`: fill the buffer from `bytes`; if it is
     * full, every lane takes its `Round` and the buffer empties.
     */
    method FillAndAbsorb(bytes: seq<byte>) returns (rest: seq<byte>)
      requires Absorbed() && bytes != []
      modifies this`bufferLen, this`stream, acc, buffer
      ensures Absorbed() && seed == old(seed) && old(stream) + bytes == stream + rest
      ensures |rest| < |bytes|
    {
      ghost var buf, lanes := buffer[..bufferLen], acc[..];
      var full;
      full, rest := FillBuffer(bytes);
      ghost var taken := bytes[..|bytes| - |rest|];
      TakenRest(stream, bytes, taken, rest);
      if full {
        assert buffer[..] == buf + taken;
        AbsorbBuffer();
        FillKeepsInv(seed, stream, lanes, buf, taken, acc[..]);
        bufferLen := 0;
      } else {
        BufferKeepsInv(seed, stream, lanes, buf, taken);
      }
      stream := stream + taken;
    }

    /** `Hasher<u64>::finish`: the XXH64 digest of everything written under the seed. */
    function Finish(): (r: bv64)
      reads this, acc, buffer
      requires Valid()
      ensures r == Digest(seed, stream)
    {
      Final(acc[..], totalLen, buffer[..bufferLen])
    }
  }

  /**
   * Two hashers with the same seed that were fed the same bytes are in the
   * same state, however the bytes were split into `write` calls.
   */
  lemma StateDeterminedByStream(h: Hasher, g: Hasher)
    requires h.Valid() && g.Valid()
    requires h.seed == g.seed && h.stream == g.stream
    ensures h.acc[..] == g.acc[..] && h.bufferLen == g.bufferLen && h.totalLen == g.totalLen
    ensures h.buffer[..h.bufferLen] == g.buffer[..g.bufferLen]
    ensures h.Finish() == g.Finish()
  {}

  /**
   * Until 32 bytes have been written no stripe has been absorbed, so the
   * lanes are still the initial ones and lane 2 still holds the seed.
   */
  lemma SeedLaneKept(h: Hasher)
    requires h.Valid() && |h.stream| < 32
    ensures h.acc[..] == InitLanes(h.seed) && h.acc[2] == h.seed
  {
    assert Aligned(h.stream) == 0 && h.stream[..0] == [];
  }

  /** `Xxh64BuildHasher`: the seed of the hashers it builds. */
  datatype BuildHasher = BuildHasher(seed: bv64)
  {
    /** `build_hasher`: a fresh `Xxh64::with_seed` of the stored seed. */
    method Build() returns (h: Hasher)
      ensures fresh(h) && fresh(h.acc) && fresh(h.buffer)
      ensures h.Valid() && h.seed == seed && h.stream == []
    {
      h := new Hasher.WithSeed(seed);
    }
  }

  /** `Xxh64BuildHasher::new` (and `default`): seed 0. */
  function NewBuildHasher(): (b: BuildHasher)
    ensures b.seed == 0
  {
    BuildHasher(0)
  }

  /**
   * `hash_one` of a byte slice, as the crate's tests hash their inputs:
   * build a hasher, feed the bytes one `write_u8` at a time, finish.
   */
  method HashBytes(b: BuildHasher, s: seq<byte>) returns (r: bv64)
    ensures r == Digest(b.seed, s)
  {
    var h := b.Build();
    for i := 0 to |s|
      invariant fresh(h.acc) && fresh(h.buffer)
      invariant h.Valid() && h.seed == b.seed && h.stream == s[..i]
    {
      h.Write([s[i]]);
      TakeSnoc(s, i);
    }
    assert s[..|s|] == s;
    r := h.Finish();
  }

  /** The known answers for the empty input, with seed 0 and with seed 0x5555555555555555. */
  lemma KnownAnswersEmpty()
    ensures Digest(0, []) == 0xef46db3751d8e999
    ensures Digest(0x5555555555555555, []) == 0x28e7a0126181c619
  {}

  /** The known answer for "a", seed 0. */
  lemma KnownAnswerA()
    ensures Digest(0, [0x61]) == 0xd24ec4f1a98c6e5b
  {
    ShortInput(0, [0x61]);
  }

  /** The known answer for "abc", seed 0. */
  lemma KnownAnswerAbc()
    ensures Digest(0, [0x61, 0x62, 0x63]) == 0x44bc2cf5ad770999
  {
    ShortInput(0, [0x61, 0x62, 0x63]);
  }

  /** A tail of at least eight bytes: its first word takes a `Word8Step`, then the rest is folded. */
  lemma TailFoldWord8(acc: bv64, w: seq<byte>, t: seq<byte>)
    requires |w| == 8
    ensures TailFold(acc, w + t) == TailFold(Word8Step(acc, LeWord(w)), t)
  {
    assert (w + t)[..8] == w && (w + t)[8..] == t;
  }

  /** A tail of four to seven bytes: one `Word4Step`, then a `ByteStep` per byte left. */
  lemma TailFoldWord4(acc: bv64, w: seq<byte>, t: seq<byte>)
    requires |w| == 4 && |t| < 4
    ensures TailFold(acc, w + t) == TailBytes(Word4Step(acc, LeWord(w)), t)
  {
    assert (w + t)[..4] == w && (w + t)[4..] == t;
  }

  /** The first word of "abcdefghijkl" folded into the result. */
  lemma TwelveWord8()
    ensures Word8Step(0x27d4eb2f165667d1, LeWord([0x61, 0x62, 0x63, 0x64, 0x65, 0x66, 0x67, 0x68])) == 0xad663988b65ad1df
  {
    assert LeWord([0x61, 0x62, 0x63, 0x64, 0x65, 0x66, 0x67, 0x68]) == 0x6867666564636261;
  }

  /** The second word of "abcdefghijkl", four bytes, folded into the result. */
  lemma TwelveWord4()
    ensures Word4Step(0xad663988b65ad1df, LeWord([0x69, 0x6a, 0x6b, 0x6c])) == 0x83c1aa41e41ed676
  {
    assert LeWord([0x69, 0x6a, 0x6b, 0x6c]) == 0x6c6b6a69;
  }

  /** The tail of "abcdefghijkl" after the 12-byte length is added: a word of eight, then one of four. */
  lemma TwelveTail(acc: bv64, w: seq<byte>, t: seq<byte>)
    requires acc == 0x27d4eb2f165667d1
    requires w == [0x61, 0x62, 0x63, 0x64, 0x65, 0x66, 0x67, 0x68] && t == [0x69, 0x6a, 0x6b, 0x6c]
    ensures TailFold(acc, w + t) == 0x83c1aa41e41ed676
  {
    TwelveWord8();
    TailFoldWord8(acc, w, t);
    assert t + [] == t;
    TailFoldWord4(0xad663988b65ad1df, t, []);
    TwelveWord4();
  }

  /** The known answer for "abcdefghijkl", seed 0: one 8-byte word and one 4-byte word of tail. */
  lemma KnownAnswerTwelve()
    ensures Digest(0, [0x61, 0x62, 0x63, 0x64, 0x65, 0x66, 0x67, 0x68] + [0x69, 0x6a, 0x6b, 0x6c]) == 0x4b09b7d3a233d4b3
  {
    var s: seq<byte> := [0x61, 0x62, 0x63, 0x64, 0x65, 0x66, 0x67, 0x68] + [0x69, 0x6a, 0x6b, 0x6c];
    ShortInput(0, s);
    assert Start(InitLanes(0), 12) + U64(12) == 0x27d4eb2f165667d1;
    TwelveTail(0x27d4eb2f165667d1, [0x61, 0x62, 0x63, 0x64, 0x65, 0x66, 0x67, 0x68], [0x69, 0x6a, 0x6b, 0x6c]);
    assert Avalanche(0x83c1aa41e41ed676) == 0x4b09b7d3a233d4b3;
  }

  /** A 32-byte input is one stripe and no tail: the digest is taken from the lanes after that stripe. */
  lemma OneStripe(seed: bv64, s: seq<byte>)
    requires |s| == 32
    ensures Digest(seed, s) == Final(Stripe(InitLanes(seed), s), 32, [])
  {
    AlignedAt(s, 32);
    assert s[..32] == s && s[32..] == [];
    StripesSnoc(InitLanes(seed), [], s);
    assert [] + s == s;
  }

  /** The lanes of a stripe read four 8-byte pieces, one word each. */
  lemma StripeWords(a: seq<byte>, b: seq<byte>, c: seq<byte>, d: seq<byte>)
    requires |a| == 8 && |b| == 8 && |c| == 8 && |d| == 8
    ensures |a + b + c + d| == 32
    ensures StripeWord(a + b + c + d, 0) == LeWord(a) && StripeWord(a + b + c + d, 1) == LeWord(b)
    ensures StripeWord(a + b + c + d, 2) == LeWord(c) && StripeWord(a + b + c + d, 3) == LeWord(d)
  {
    var s := a + b + c + d;
    assert s[0..8] == a && s[8..16] == b && s[16..24] == c && s[24..32] == d;
  }

  /** Lanes 0 and 1 of seed 0 after the stripe "abcdefghijklmnopqrstuvwxyz012345". */
  lemma StripeLanes01()
    ensures Round(0x60ea27eeadc0b5d6, LeWord([0x61, 0x62, 0x63, 0x64, 0x65, 0x66, 0x67, 0x68])) == 0x24201c46204b39b5
    ensures Round(0xc2b2ae3d27d4eb4f, LeWord([0x69, 0x6a, 0x6b, 0x6c, 0x6d, 0x6e, 0x6f, 0x70])) == 0xf33e2c3fffa3007d
  {
    assert LeWord([0x61, 0x62, 0x63, 0x64, 0x65, 0x66, 0x67, 0x68]) == 0x6867666564636261;
    assert LeWord([0x69, 0x6a, 0x6b, 0x6c, 0x6d, 0x6e, 0x6f, 0x70]) == 0x706f6e6d6c6b6a69;
  }

  /** Lanes 2 and 3 of seed 0 after the stripe "abcdefghijklmnopqrstuvwxyz012345". */
  lemma StripeLanes23()
    ensures Round(0, LeWord([0x71, 0x72, 0x73, 0x74, 0x75, 0x76, 0x77, 0x78])) == 0xfa91a0f6a881305b
    ensures Round(0x61c8864e7a143579, LeWord([0x79, 0x7a, 0x30, 0x31, 0x32, 0x33, 0x34, 0x35])) == 0x85147c916ab5610d
  {
    assert LeWord([0x71, 0x72, 0x73, 0x74, 0x75, 0x76, 0x77, 0x78]) == 0x7877767574737271;
    assert LeWord([0x79, 0x7a, 0x30, 0x31, 0x32, 0x33, 0x34, 0x35]) == 0x3534333231307a79;
  }

  /** The lanes after "abcdefghijklmnopqrstuvwxyz012345" converge to one word. */
  lemma StripeConverge(l: Lanes)
    requires l == [0x24201c46204b39b5, 0xf33e2c3fffa3007d, 0xfa91a0f6a881305b, 0x85147c916ab5610d]
    ensures Converge(l) == 0xa3fb16449c9d49f7
  {
    assert Merge(0xf3ab6de9a952865d, 0x24201c46204b39b5) == 0x950d398bd4e30dae;
    assert Merge(0x950d398bd4e30dae, 0xf33e2c3fffa3007d) == 0xe4b746463127c6e2;
    assert Merge(0xe4b746463127c6e2, 0xfa91a0f6a881305b) == 0xded8f643f10a62ff;
    assert Merge(0xded8f643f10a62ff, 0x85147c916ab5610d) == 0xa3fb16449c9d49f7;
  }

  /** The lanes of seed 0 after the stripe "abcdefghijklmnopqrstuvwxyz012345". */
  lemma StripeOfAlphabet(a: seq<byte>, b: seq<byte>, c: seq<byte>, d: seq<byte>)
    requires a == [0x61, 0x62, 0x63, 0x64, 0x65, 0x66, 0x67, 0x68] && b == [0x69, 0x6a, 0x6b, 0x6c, 0x6d, 0x6e, 0x6f, 0x70]
    requires c == [0x71, 0x72, 0x73, 0x74, 0x75, 0x76, 0x77, 0x78] && d == [0x79, 0x7a, 0x30, 0x31, 0x32, 0x33, 0x34, 0x35]
    ensures |a + b + c + d| == 32
    ensures Stripe(InitLanes(0), a + b + c + d)
         == [0x24201c46204b39b5, 0xf33e2c3fffa3007d, 0xfa91a0f6a881305b, 0x85147c916ab5610d]
  {
    StripeWords(a, b, c, d);
    assert InitLanes(0) == [0x60ea27eeadc0b5d6, 0xc2b2ae3d27d4eb4f, 0, 0x61c8864e7a143579];
    StripeLanes01();
    StripeLanes23();
  }

  /** `finish` of those lanes after 32 bytes with nothing buffered. */
  lemma StripeFinal(l: Lanes)
    requires l == [0x24201c46204b39b5, 0xf33e2c3fffa3007d, 0xfa91a0f6a881305b, 0x85147c916ab5610d]
    ensures Final(l, 32, []) == 0xbf2cd639b4143b80
  {
    StripeConverge(l);
    assert Start(l, 32) + U64(32) == 0xa3fb16449c9d4a17;
    assert Avalanche(0xa3fb16449c9d4a17) == 0xbf2cd639b4143b80;
  }

  /** The known answer for "abcdefghijklmnopqrstuvwxyz012345", seed 0: one whole stripe, no tail. */
  lemma KnownAnswerStripe()
    ensures Digest(0, [0x61, 0x62, 0x63, 0x64, 0x65, 0x66, 0x67, 0x68] + [0x69, 0x6a, 0x6b, 0x6c, 0x6d, 0x6e, 0x6f, 0x70]
                    + [0x71, 0x72, 0x73, 0x74, 0x75, 0x76, 0x77, 0x78] + [0x79, 0x7a, 0x30, 0x31, 0x32, 0x33, 0x34, 0x35]) == 0xbf2cd639b4143b80
  {
    var a: seq<byte>, b: seq<byte>, c: seq<byte>, d: seq<byte> := [0x61, 0x62, 0x63, 0x64, 0x65, 0x66, 0x67, 0x68], [0x69, 0x6a, 0x6b, 0x6c, 0x6d, 0x6e, 0x6f, 0x70], [0x71, 0x72, 0x73, 0x74, 0x75, 0x76, 0x77, 0x78], [0x79, 0x7a, 0x30, 0x31, 0x32, 0x33, 0x34, 0x35];
    OneStripe(0, a + b + c + d);
    StripeOfAlphabet(a, b, c, d);
    StripeFinal([0x24201c46204b39b5, 0xf33e2c3fffa3007d, 0xfa91a0f6a881305b, 0x85147c916ab5610d]);
  }
}

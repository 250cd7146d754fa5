/**
 * The Fowler–Noll–Vo hashers of the hash-t crate (`Fnv<T, V>`): one
 * accumulator word, updated once per byte with an xor and a wrapping multiply
 * by the FNV prime. FNV-1 multiplies first, FNV-1a xors first; `finish`
 * returns the accumulator.
 *
 * The accumulator of every width is held in a `bv128` whose bits above the
 * width are zero (`Fits`); a wrapping multiply of the width is the 128-bit
 * product masked to the width.
 */
module Fnv {
  import opened Bytes

  /** The accumulator types that implement `Type`: u32, u64 and u128. */
  datatype Width = U32 | U64 | U128

  /** `V1` (FNV-1) multiplies before the xor; `V1A` (FNV-1a) xors before the multiply. */
  datatype Version = V1 | V1A

  /** `x` is a value of the width's type: no bit above the width is set. */
  predicate Fits(w: Width, x: bv128)
  {
    match w
    case U32 => x >> 32 == 0
    case U64 => x >> 64 == 0
    case U128 => true
  }

  /** `Type::OFFSET_BASIS`. */
  function OffsetBasis(w: Width): (r: bv128)
    ensures Fits(w, r)
  {
    match w
    case U32 => 0x811c9dc5
    case U64 => 0xcbf29ce484222325
    case U128 => 0x6c62272e07bb014262b821756295c58d
  }

  /** `Type::PRIME`: 2^24 + 2^8 + 0x93, 2^40 + 2^8 + 0xb3 and 2^88 + 2^8 + 0x3b. */
  function Prime(w: Width): (r: bv128)
    ensures Fits(w, r)
  {
    match w
    case U32 => 0x01000193
    case U64 => 0x100000001b3
    case U128 => 0x0000000001000000000000000000013b
  }

  /** `x` reduced modulo 2^bits of the width: the bits above the width cleared. */
  function Mask(w: Width, x: bv128): (r: bv128)
    ensures Fits(w, r)
    ensures Fits(w, x) ==> r == x
  {
    match w
    case U32 => x & 0xffff_ffff
    case U64 => x & 0xffff_ffff_ffff_ffff
    case U128 => x
  }

  /** The product `x * p`, modulo 2^128. */
  function Product(x: bv128, p: bv128): bv128
  {
    x * p
  }

  /**
   * `x.wrapping_mul(Self::PRIME)`: the product with the prime, modulo 2^bits of
   * the width. Each width multiplies by its prime written out as a literal, so
   * that the solver evaluates folds over literal bytes; `MulPrimeIsProduct`
   * shows this is the product with `Prime(w)`.
   */
  function MulPrime(w: Width, x: bv128): (r: bv128)
    ensures Fits(w, r)
  {
    match w
    case U32 => Product(x, 0x01000193) & 0xffff_ffff
    case U64 => Product(x, 0x100000001b3) & 0xffff_ffff_ffff_ffff
    case U128 => Product(x, 0x0000000001000000000000000000013b)
  }

  /** The wrapping multiply is the product with `Prime(w)`, masked to the width. */
  lemma MulPrimeIsProduct(w: Width, x: bv128)
    ensures MulPrime(w, x) == Mask(w, Product(x, Prime(w)))
  {
    match w
    case U32 => assert Prime(w) == 0x01000193;
    case U64 => assert Prime(w) == 0x100000001b3;
    case U128 => assert Prime(w) == 0x0000000001000000000000000000013b;
  }

  /** The accumulator after one more byte. */
  function Step(w: Width, v: Version, acc: bv128, b: byte): (r: bv128)
    requires Fits(w, acc)
    ensures Fits(w, r)
  {
    match v
    case V1A => MulPrime(w, acc ^ (b as bv128))
    case V1 => MulPrime(w, acc) ^ (b as bv128)
  }

  /** The accumulator after the bytes `s`, one `Step` per byte from the first. */
  function Fold(w: Width, v: Version, acc: bv128, s: seq<byte>): (r: bv128)
    requires Fits(w, acc)
    ensures Fits(w, r)
    decreases |s|
  {
    if s == [] then acc else Fold(w, v, Step(w, v, acc, s[0]), s[1..])
  }

  /** Writing `x` and then `y` leaves the accumulator that writing `x + y` does. */
  lemma {:induction false} FoldAppend(w: Width, v: Version, acc: bv128, x: seq<byte>, y: seq<byte>)
    requires Fits(w, acc)
    ensures Fold(w, v, acc, x + y) == Fold(w, v, Fold(w, v, acc, x), y)
    decreases |x|
  {
    if x == [] {
      assert x + y == y;
    } else {
      assert (x + y)[0] == x[0] && (x + y)[1..] == x[1..] + y;
      FoldAppend(w, v, Step(w, v, acc, x[0]), x[1..], y);
    }
  }

  /** One byte more is one step more. */
  lemma FoldSnoc(w: Width, v: Version, acc: bv128, s: seq<byte>, b: byte)
    requires Fits(w, acc)
    ensures Fold(w, v, acc, s + [b]) == Step(w, v, Fold(w, v, acc, s), b)
  {
    FoldAppend(w, v, acc, s, [b]);
  }

  /** The loop of `write`: one `Step` per byte, in order. */
  method WriteBytes(w: Width, v: Version, acc: bv128, bytes: seq<byte>) returns (r: bv128)
    requires Fits(w, acc)
    ensures r == Fold(w, v, acc, bytes)
  {
    r := acc;
    for i := 0 to |bytes|
      invariant r == Fold(w, v, acc, bytes[..i])
    {
      r := Step(w, v, r, bytes[i]);
      FoldSnoc(w, v, acc, bytes[..i], bytes[i]);
      TakeSnoc(bytes, i);
    }
    assert bytes[..|bytes|] == bytes;
  }

  /** An `Fnv<T, V>` hasher; `acc` is its one field, `self.0`. */
  class Hasher {
    const width: Width
    const version: Version
    var acc: bv128
    /** The value the accumulator started from. */
    ghost var seed: bv128
    /** Every byte written so far, in order. */
    ghost var stream: seq<byte>

    ghost predicate Valid()
      reads this
    {
      Fits(width, seed) && acc == Fold(width, version, seed, stream)
    }

    /** `Fnv::new`: the accumulator starts at the offset basis. */
    constructor New(width: Width, version: Version)
      ensures Valid() && this.width == width && this.version == version
      ensures seed == OffsetBasis(width) && stream == []
    {
      this.width := width;
      this.version := version;
      acc := OffsetBasis(width);
      seed := OffsetBasis(width);
      stream := [];
    }

    /** `Fnv::with_seed`: the accumulator starts at `seed`. */
    constructor WithSeed(width: Width, version: Version, seed: bv128)
      requires Fits(width, seed)
      ensures Valid() && this.width == width && this.version == version
      ensures this.seed == seed && stream == []
    {
      this.width := width;
      this.version := version;
      acc := seed;
      this.seed := seed;
      stream := [];
    }

    /** `HasherWrite::write`: fold every byte into the accumulator, in order. */
    method Write(bytes: seq<byte>)
      requires Valid()
      modifies this
      ensures Valid() && seed == old(seed) && stream == old(stream) + bytes
      ensures acc == Fold(width, version, old(acc), bytes)
    {
      acc := WriteBytes(width, version, acc, bytes);
      FoldAppend(width, version, seed, stream, bytes);
      stream := stream + bytes;
    }

    /** `Hasher::finish`: the fold of the seed over everything written. */
    function Finish(): (r: bv128)
      reads this
      requires Valid()
      ensures r == Fold(width, version, seed, stream)
    {
      acc
    }
  }

  /** `FnvBuildHasher<T, V>`: the seed of the hashers it builds. */
  datatype BuildHasher = BuildHasher(width: Width, version: Version, seed: bv128)
  {
    ghost predicate Valid()
    {
      Fits(width, seed)
    }

    /** `build_hasher`: a fresh `Fnv::with_seed` of the stored seed. */
    method Build() returns (h: Hasher)
      requires Valid()
      ensures fresh(h) && h.Valid() && h.stream == []
      ensures h.width == width && h.version == version && h.seed == seed
    {
      h := new Hasher.WithSeed(width, version, seed);
    }
  }

  /** `FnvBuildHasher::new` (and `default`): the offset basis of the width. */
  function NewBuildHasher(w: Width, v: Version): (b: BuildHasher)
    ensures b.Valid() && b.width == w && b.version == v
    ensures b.seed == OffsetBasis(w)
  {
    BuildHasher(w, v, OffsetBasis(w))
  }

  /** `FnvDefaultBuildHasher<V>::build_hasher`: `Fnv::new` for the width the caller asks for. */
  method BuildDefault(w: Width, v: Version) returns (h: Hasher)
    ensures fresh(h) && h.Valid() && h.stream == []
    ensures h.width == w && h.version == v && h.seed == OffsetBasis(w)
  {
    h := new Hasher.New(w, v);
  }

  /**
   * `hash_one` of a byte slice, as the crate's tests hash their inputs:
   * build a hasher, feed the bytes one `write_u8` at a time, finish.
   */
  method HashBytes(b: BuildHasher, s: seq<byte>) returns (r: bv128)
    requires b.Valid()
    ensures r == Fold(b.width, b.version, b.seed, s)
  {
    var h := b.Build();
    for i := 0 to |s|
      invariant fresh(h) && h.Valid() && h.width == b.width && h.version == b.version
      invariant h.seed == b.seed && h.stream == s[..i]
    {
      h.Write([s[i]]);
      TakeSnoc(s, i);
    }
    assert s[..|s|] == s;
    r := h.Finish();
  }

  /** The empty input hashes to the seed: the offset basis by default, or any custom seed. */
  lemma EmptyIsSeed(b: BuildHasher)
    requires b.Valid()
    ensures Fold(b.width, b.version, b.seed, []) == b.seed
  {}

  /** The 32 bytes `chongo <Landon Curt Noll> /\../\`, in four 8-byte chunks. */
  const Chongo: seq<byte> := Chongo1 + Chongo2 + Chongo3 + Chongo4
  const Chongo1: seq<byte> := [0x63, 0x68, 0x6f, 0x6e, 0x67, 0x6f, 0x20, 0x3c]
  const Chongo2: seq<byte> := [0x4c, 0x61, 0x6e, 0x64, 0x6f, 0x6e, 0x20, 0x43]
  const Chongo3: seq<byte> := [0x75, 0x72, 0x74, 0x20, 0x4e, 0x6f, 0x6c, 0x6c]
  const Chongo4: seq<byte> := [0x3e, 0x20, 0x2f, 0x5c, 0x2e, 0x2e, 0x2f, 0x5c]

  /**
   * The FNV-0 check: FNV-1 started from zero turns Noll's signature line into
   * the offset basis, for every width.
   */
  lemma Fnv0Check(w: Width)
    ensures Fold(w, V1, 0, Chongo) == OffsetBasis(w)
  {
    match w
    case U32 => Fnv0CheckU32(w);
    case U64 => Fnv0CheckU64(w);
    case U128 => Fnv0CheckU128(w);
  }

  lemma Fnv0CheckU32(w: Width)
    requires w == U32
    ensures Fold(w, V1, 0, Chongo) == OffsetBasis(w)
  {
    Fnv0U32Chunk1(w);
    Fnv0U32Chunk2(w);
    Fnv0U32Chunk3(w);
    Fnv0U32Chunk4(w);
    Fnv0Glue(w, 0x8b8ae088, 0xbd3906bb, 0x3f4f5eaf);
  }

  lemma Fnv0CheckU64(w: Width)
    requires w == U64
    ensures Fold(w, V1, 0, Chongo) == OffsetBasis(w)
  {
    Fnv0U64Chunk1(w);
    Fnv0U64Chunk2(w);
    Fnv0U64Chunk3(w);
    Fnv0U64Chunk4(w);
    Fnv0Glue(w, 0xae6be54f5606fc28, 0x2bb0f8de7b8ac83b, 0x1d223e4501e8284f);
  }

  lemma Fnv0CheckU128(w: Width)
    requires w == U128
    ensures Fold(w, V1, 0, Chongo) == OffsetBasis(w)
  {
    Fnv0U128Chunk1(w);
    Fnv0U128Chunk2(w);
    Fnv0U128Chunk3(w);
    Fnv0U128Chunk4(w);
    Fnv0Glue(w, 0xc48356b261000001a6788ba5a50ccb40, 0x20214b66356b3bf6080b204627a9341b, 0x79b9f6d7ee67c2ceae90475f0dcb58e7);
  }

  /** The check follows from the accumulators after each 8-byte chunk. */
  lemma Fnv0Glue(w: Width, a1: bv128, a2: bv128, a3: bv128)
    requires Fits(w, a1) && Fits(w, a2) && Fits(w, a3)
    requires Fold(w, V1, 0, Chongo1) == a1
    requires Fold(w, V1, a1, Chongo2) == a2
    requires Fold(w, V1, a2, Chongo3) == a3
    requires Fold(w, V1, a3, Chongo4) == OffsetBasis(w)
    ensures Fold(w, V1, 0, Chongo) == OffsetBasis(w)
  {
    var c1, c2, c3, c4 := Chongo1, Chongo2, Chongo3, Chongo4;
    FoldAppend(w, V1, 0, c1 + c2 + c3, c4);
    FoldAppend(w, V1, 0, c1 + c2, c3);
    FoldAppend(w, V1, 0, c1, c2);
  }

  /** The FNV-1 accumulator of width U32 after chunk 1 of the signature line. */
  lemma Fnv0U32Chunk1(w: Width)
    requires w == U32
    ensures Fits(w, 0) && Fold(w, V1, 0, Chongo1) == 0x8b8ae088
  {
    assert Fold(U32, V1, 0, [0x63, 0x68, 0x6f, 0x6e, 0x67, 0x6f, 0x20, 0x3c]) == 0x8b8ae088;
  }

  /** The FNV-1 accumulator of width U32 after chunk 2 of the signature line. */
  lemma Fnv0U32Chunk2(w: Width)
    requires w == U32
    ensures Fits(w, 0x8b8ae088) && Fold(w, V1, 0x8b8ae088, Chongo2) == 0xbd3906bb
  {
    assert Fold(U32, V1, 0x8b8ae088, [0x4c, 0x61, 0x6e, 0x64, 0x6f, 0x6e, 0x20, 0x43]) == 0xbd3906bb;
  }

  /** The FNV-1 accumulator of width U32 after chunk 3 of the signature line. */
  lemma Fnv0U32Chunk3(w: Width)
    requires w == U32
    ensures Fits(w, 0xbd3906bb) && Fold(w, V1, 0xbd3906bb, Chongo3) == 0x3f4f5eaf
  {
    assert Fold(U32, V1, 0xbd3906bb, [0x75, 0x72, 0x74, 0x20, 0x4e, 0x6f, 0x6c, 0x6c]) == 0x3f4f5eaf;
  }

  /** The FNV-1 accumulator of width U32 after chunk 4 of the signature line. */
  lemma Fnv0U32Chunk4(w: Width)
    requires w == U32
    ensures Fits(w, 0x3f4f5eaf) && Fold(w, V1, 0x3f4f5eaf, Chongo4) == 0x811c9dc5
  {
    assert Fold(U32, V1, 0x3f4f5eaf, [0x3e, 0x20, 0x2f, 0x5c, 0x2e, 0x2e, 0x2f, 0x5c]) == 0x811c9dc5;
  }

  /** The FNV-1 accumulator of width U64 after chunk 1 of the signature line. */
  lemma Fnv0U64Chunk1(w: Width)
    requires w == U64
    ensures Fits(w, 0) && Fold(w, V1, 0, Chongo1) == 0xae6be54f5606fc28
  {
    assert Fold(U64, V1, 0, [0x63, 0x68, 0x6f, 0x6e, 0x67, 0x6f, 0x20, 0x3c]) == 0xae6be54f5606fc28;
  }

  /** The FNV-1 accumulator of width U64 after chunk 2 of the signature line. */
  lemma Fnv0U64Chunk2(w: Width)
    requires w == U64
    ensures Fits(w, 0xae6be54f5606fc28) && Fold(w, V1, 0xae6be54f5606fc28, Chongo2) == 0x2bb0f8de7b8ac83b
  {
    assert Fold(U64, V1, 0xae6be54f5606fc28, [0x4c, 0x61, 0x6e, 0x64, 0x6f, 0x6e, 0x20, 0x43]) == 0x2bb0f8de7b8ac83b;
  }

  /** The FNV-1 accumulator of width U64 after chunk 3 of the signature line. */
  lemma Fnv0U64Chunk3(w: Width)
    requires w == U64
    ensures Fits(w, 0x2bb0f8de7b8ac83b) && Fold(w, V1, 0x2bb0f8de7b8ac83b, Chongo3) == 0x1d223e4501e8284f
  {
    assert Fold(U64, V1, 0x2bb0f8de7b8ac83b, [0x75, 0x72, 0x74, 0x20, 0x4e, 0x6f, 0x6c, 0x6c]) == 0x1d223e4501e8284f;
  }

  /** The FNV-1 accumulator of width U64 after chunk 4 of the signature line. */
  lemma Fnv0U64Chunk4(w: Width)
    requires w == U64
    ensures Fits(w, 0x1d223e4501e8284f) && Fold(w, V1, 0x1d223e4501e8284f, Chongo4) == 0xcbf29ce484222325
  {
    assert Fold(U64, V1, 0x1d223e4501e8284f, [0x3e, 0x20, 0x2f, 0x5c, 0x2e, 0x2e, 0x2f, 0x5c]) == 0xcbf29ce484222325;
  }

  /** The FNV-1 accumulator of width U128 after chunk 1 of the signature line. */
  lemma Fnv0U128Chunk1(w: Width)
    requires w == U128
    ensures Fits(w, 0) && Fold(w, V1, 0, Chongo1) == 0xc48356b261000001a6788ba5a50ccb40
  {
    assert Fold(U128, V1, 0, [0x63, 0x68, 0x6f, 0x6e, 0x67, 0x6f, 0x20, 0x3c]) == 0xc48356b261000001a6788ba5a50ccb40;
  }

  /** The FNV-1 accumulator of width U128 after chunk 2 of the signature line. */
  lemma Fnv0U128Chunk2(w: Width)
    requires w == U128
    ensures Fits(w, 0xc48356b261000001a6788ba5a50ccb40) && Fold(w, V1, 0xc48356b261000001a6788ba5a50ccb40, Chongo2) == 0x20214b66356b3bf6080b204627a9341b
  {
    assert Fold(U128, V1, 0xc48356b261000001a6788ba5a50ccb40, [0x4c, 0x61, 0x6e, 0x64, 0x6f, 0x6e, 0x20, 0x43]) == 0x20214b66356b3bf6080b204627a9341b;
  }

  /** The FNV-1 accumulator of width U128 after chunk 3 of the signature line. */
  lemma Fnv0U128Chunk3(w: Width)
    requires w == U128
    ensures Fits(w, 0x20214b66356b3bf6080b204627a9341b) && Fold(w, V1, 0x20214b66356b3bf6080b204627a9341b, Chongo3) == 0x79b9f6d7ee67c2ceae90475f0dcb58e7
  {
    assert Fold(U128, V1, 0x20214b66356b3bf6080b204627a9341b, [0x75, 0x72, 0x74, 0x20, 0x4e, 0x6f, 0x6c, 0x6c]) == 0x79b9f6d7ee67c2ceae90475f0dcb58e7;
  }

  /** The FNV-1 accumulator of width U128 after chunk 4 of the signature line. */
  lemma Fnv0U128Chunk4(w: Width)
    requires w == U128
    ensures Fits(w, 0x79b9f6d7ee67c2ceae90475f0dcb58e7) && Fold(w, V1, 0x79b9f6d7ee67c2ceae90475f0dcb58e7, Chongo4) == 0x6c62272e07bb014262b821756295c58d
  {
    assert Fold(U128, V1, 0x79b9f6d7ee67c2ceae90475f0dcb58e7, [0x3e, 0x20, 0x2f, 0x5c, 0x2e, 0x2e, 0x2f, 0x5c]) == 0x6c62272e07bb014262b821756295c58d;
  }

  /** FNV-1a-64 of "a" and "abc" from the offset basis, and of "a" from 0x5555555555555555. */
  lemma Fnv1a64KnownAnswers()
    ensures Fold(U64, V1A, OffsetBasis(U64), [0x61]) == 0xaf63dc4c8601ec8c
    ensures Fold(U64, V1A, OffsetBasis(U64), [0x61, 0x62, 0x63]) == 0xe71fa2190541574b
    ensures Fold(U64, V1A, 0x5555555555555555, [0x61]) == 0x555533ffffffc75c
  {}
}

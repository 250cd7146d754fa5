/**
 * The FNV-1a hasher of the root crate (`Fnv1a<T>` in src/fnv1a.rs). It carries
 * its own `FnvConfig` constants; the model shows they are the standard FNV
 * values, so the hasher computes exactly the FNV-1a fold of the hash-t crate.
 */
module Fnv1a {
  import opened Bytes
  import Fnv

  /** The accumulator types that implement `FnvConfig`: u32, u64 and u128. */
  type Width = Fnv.Width

  /** `FnvConfig::OFFSET_BASIS`. */
  function OffsetBasis(w: Width): (r: bv128)
    ensures Fnv.Fits(w, r)
  {
    match w
    case U32 => 0x811c9dc5
    case U64 => 0xcbf29ce484222325
    case U128 => 0x6c62272e07bb014262b821756295c58d
  }

  /** `FnvConfig::PRIME`. */
  function Prime(w: Width): (r: bv128)
    ensures Fnv.Fits(w, r)
  {
    match w
    case U32 => 0x01000193
    case U64 => 0x100000001b3
    case U128 => 0x0000000001000000000000000000013b
  }

  /** The root crate's constants are the standard FNV offset bases and primes. */
  lemma ConfigIsStandard(w: Width)
    ensures OffsetBasis(w) == Fnv.OffsetBasis(w) && Prime(w) == Fnv.Prime(w)
  {}

  /**
   * `self.0.wrapping_mul(Self::PRIME)` with this module's own prime: the
   * product modulo 2^bits of the width, which is the hash-t crate's multiply.
   */
  function MulPrime(w: Width, x: bv128): (r: bv128)
    ensures r == Fnv.MulPrime(w, x)
  {
    ConfigIsStandard(w);
    Fnv.MulPrimeIsProduct(w, x);
    Fnv.Mask(w, Fnv.Product(x, Prime(w)))
  }

  /** One byte of `write`: `self.0 ^= byte.into(); self.0 = self.0.wrapping_mul(Self::PRIME)`. */
  function Step(w: Width, acc: bv128, b: byte): (r: bv128)
    requires Fnv.Fits(w, acc)
    ensures r == Fnv.Step(w, Fnv.V1A, acc, b)
  {
    MulPrime(w, acc ^ (b as bv128))
  }

  /** The loop of `write`: one `Step` per byte, in order. */
  method WriteBytes(w: Width, acc: bv128, bytes: seq<byte>) returns (r: bv128)
    requires Fnv.Fits(w, acc)
    ensures r == Fnv.Fold(w, Fnv.V1A, acc, bytes)
  {
    r := acc;
    for i := 0 to |bytes|
      invariant r == Fnv.Fold(w, Fnv.V1A, acc, bytes[..i])
    {
      r := Step(w, r, bytes[i]);
      Fnv.FoldSnoc(w, Fnv.V1A, acc, bytes[..i], bytes[i]);
      TakeSnoc(bytes, i);
    }
    assert bytes[..|bytes|] == bytes;
  }

  /** An `Fnv1a<T>` hasher; `acc` is its one field, `self.0`. */
  class Hasher {
    const width: Width
    var acc: bv128
    /** The value the accumulator started from. */
    ghost var seed: bv128
    /** Every byte written so far, in order. */
    ghost var stream: seq<byte>

    ghost predicate Valid()
      reads this
    {
      Fnv.Fits(width, seed) && acc == Fnv.Fold(width, Fnv.V1A, seed, stream)
    }

    /** `Fnv1a::new`: the accumulator starts at the offset basis. */
    constructor New(width: Width)
      ensures Valid() && this.width == width
      ensures seed == OffsetBasis(width) && stream == []
    {
      this.width := width;
      acc := OffsetBasis(width);
      seed := OffsetBasis(width);
      stream := [];
    }

    /** `Fnv1a::with_seed`: the accumulator starts at `seed`. */
    constructor WithSeed(width: Width, seed: bv128)
      requires Fnv.Fits(width, seed)
      ensures Valid() && this.width == width
      ensures this.seed == seed && stream == []
    {
      this.width := width;
      acc := seed;
      this.seed := seed;
      stream := [];
    }

    /** `Hasher::write`: xor each byte into the accumulator, then multiply by the prime. */
    method Write(bytes: seq<byte>)
      requires Valid()
      modifies this
      ensures Valid() && seed == old(seed) && stream == old(stream) + bytes
      ensures acc == Fnv.Fold(width, Fnv.V1A, old(acc), bytes)
    {
      acc := WriteBytes(width, acc, bytes);
      Fnv.FoldAppend(width, Fnv.V1A, seed, stream, bytes);
      stream := stream + bytes;
    }

    /** `Hasher::finish`: the FNV-1a fold of the seed over everything written. */
    function Finish(): (r: bv128)
      reads this
      requires Valid()
      ensures r == Fnv.Fold(width, Fnv.V1A, seed, stream)
    {
      acc
    }
  }

  /** `Fnv1aBuildHasher<T>`: the seed of the hashers it builds. */
  datatype BuildHasher = BuildHasher(width: Width, seed: bv128)
  {
    ghost predicate Valid()
    {
      Fnv.Fits(width, seed)
    }

    /** `build_hasher`: a fresh `Fnv1a::with_seed` of the stored seed. */
    method Build() returns (h: Hasher)
      requires Valid()
      ensures fresh(h) && h.Valid() && h.stream == []
      ensures h.width == width && h.seed == seed
    {
      h := new Hasher.WithSeed(width, seed);
    }
  }

  /** `Fnv1aBuildHasher::new` and `default`: the offset basis. */
  function NewBuildHasher(w: Width): (b: BuildHasher)
    ensures b.Valid() && b.width == w && b.seed == Fnv.OffsetBasis(w)
  {
    BuildHasher(w, OffsetBasis(w))
  }

  /** `Fnv1aDefaultBuildHasher::build_hasher`: `Fnv1a::new` for the width the caller asks for. */
  method BuildDefault(w: Width) returns (h: Hasher)
    ensures fresh(h) && h.Valid() && h.stream == []
    ensures h.width == w && h.seed == Fnv.OffsetBasis(w)
  {
    h := new Hasher.New(w);
  }

  /**
   * `hash_one` of a byte slice as the crate's tests hash their inputs: build a
   * hasher, feed the bytes in one `write`, finish.
   */
  method HashBytes(b: BuildHasher, s: seq<byte>) returns (r: bv128)
    requires b.Valid()
    ensures r == Fnv.Fold(b.width, Fnv.V1A, b.seed, s)
  {
    var h := b.Build();
    h.Write(s);
    r := h.Finish();
  }

  /**
   * Known answers of the 64-bit hasher: the empty input gives the seed, and
   * "a" and "abc" give the published FNV-1a-64 values.
   */
  lemma KnownAnswers()
    ensures Fnv.Fold(Fnv.U64, Fnv.V1A, OffsetBasis(Fnv.U64), []) == 0xcbf29ce484222325
    ensures Fnv.Fold(Fnv.U64, Fnv.V1A, 0x5555555555555555, []) == 0x5555555555555555
    ensures Fnv.Fold(Fnv.U64, Fnv.V1A, OffsetBasis(Fnv.U64), [0x61]) == 0xaf63dc4c8601ec8c
    ensures Fnv.Fold(Fnv.U64, Fnv.V1A, OffsetBasis(Fnv.U64), [0x61, 0x62, 0x63]) == 0xe71fa2190541574b
    ensures Fnv.Fold(Fnv.U64, Fnv.V1A, 0x5555555555555555, [0x61]) == 0x555533ffffffc75c
  {
    Fnv.Fnv1a64KnownAnswers();
  }
}

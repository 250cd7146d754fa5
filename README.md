# anyhash / hash-t hash engines in Dafny

This project models the hashing core of the `anyhash` family of crates:

- three streaming, non-cryptographic hash engines:
  - SpookyHash V1 and V2 from `hash-t`;
  - XXH64 from `anyhash`;
  - FNV-1 and FNV-1a from `hash-t`, plus the root crate's own FNV-1a;
- the layer that turns the values a `Hash` impl writes into the bytes an engine absorbs:
  - the default write methods of the hasher traits;
  - the `HasherLe` and `HasherBe` wrappers that fix the byte order;
  - `hash_one` and `hash_slice`.

Each engine is a class whose fields are the fields of the Rust struct. Its `write` methods update them in place. Its `finish` is a function of the state. Every engine is proved against a specification function of the whole byte stream written so far:

- `Spooky.Hash128` for SpookyHash;
- `Xxh64.Digest` for XXH64;
- `Fnv.Fold` for both FNV hashers.

Each engine's representation invariant is kept by every `write`. Because of that, `finish` gives the same value however the stream was split into `write` calls. For SpookyHash this holds in the model of the aligned branch of `write`; the source's unaligned branch skips whole blocks, so there it does not hold (see Findings).

Some of the known answers from the crates' tests are proved about the specification functions:

- FNV: the FNV-0 check of the u32, u64 and u128 widths, and FNV-1a-64 of "a" and "abc" and of "a" under a custom seed; for the root crate's FNV-1a, the same inputs and the empty input;
- XXH64: the empty input under seed 0 and under the custom seed, "a", "abc", "abcdefghijkl" and the 32-byte "abcdefghijklmnopqrstuvwxyz012345";
- SpookyHash: V1 and V2 of the empty input and of the byte 0x80, and V1 of the first 12 and of the first 16 bytes of the test buffer.

All engine arithmetic is wrapping machine arithmetic: words are `bv64`, or `bv128` for the wider FNV widths. The host is taken to be little-endian with a 64-bit `usize`, which is what the engines' test tables assume.

The write layer models the inner hasher as a `Writes.Recorder`, which records the bytes handed to `write`. Its `finish` is that byte stream. A value's `Hash` impl is modelled as the sequence of write calls it makes (`Writes.Call`). This lets the byte-exact effect of every default method and of both wrappers be stated and compared:

- in hash-t, the wrappers write the length prefix in native order;
- in anyhash, they write it in the wrapper's own order.

Modules and files:

- `Bytes` (`bytes.dfy`): bytes, reversal, little-endian words, the `write_str` terminator.
- `Encoding` (`encoding.dfy`): `to_le_bytes`, `to_be_bytes`, `to_ne_bytes` and their inverses, per integer type.
- `Fnv` (`fnv.dfy`): `hash-t/src/fnv.rs`.
- `Fnv1a` (`fnv1a.dfy`): `src/fnv1a.rs`.
- `Xxh64` (`xxh64.dfy`): `anyhash/src/xxh64.rs`.
- `Spooky` (`spooky.dfy`): `hash-t/src/spooky.rs`.
- `Writes` (`writes.dfy`): the default write methods shared by `hash-t/src/lib.rs`, `anyhash/src/lib.rs` and `src/lib.rs`, plus `hash_one` and `hash_slice`.
- `HashT` (`hash_t.dfy`): the `HasherLe` and `HasherBe` wrappers of `hash-t/src/lib.rs`.
- `AnyHash` (`anyhash.dfy`): the `HasherLe` and `HasherBe` wrappers of `anyhash/src/lib.rs`, and `BuildHasherDefault`.

## Model

| member | source | states |
|---|---|---|
| Bytes.Reverse | anyhash/src/lib.rs:227-233 | the big-endian bytes are the little-endian ones back to front: same length, byte i is byte n-1-i |
| Bytes.ReverseReverse | anyhash/src/lib.rs:227-233 | reversing twice gives the bytes back |
| Bytes.StrBytes | hash-t/src/lib.rs:441-446 | `write_str` feeds the string's bytes, then exactly one 0xff after them |
| Bytes.TerminatorFirst | hash-t/src/lib.rs:441-446 | in a string write of a UTF-8 string, whatever follows, the first 0xff is the terminator |
| Bytes.StrBytesPrefixFree | hash-t/src/lib.rs:441-446 | two string writes followed by anything give equal bytes only if the strings and the continuations are equal |
| Encoding.Le2FromLe2 | hash-t/src/lib.rs:347-373 | every 2 bytes are the little-endian bytes of the `u16` read from them |
| Encoding.FromLe2Le2 | hash-t/src/lib.rs:347-373 | `u16::from_le_bytes(x.to_le_bytes()) == x` |
| Encoding.Le4FromLe4 | hash-t/src/lib.rs:347-373 | every 4 bytes are the little-endian bytes of the `u32` read from them |
| Encoding.FromLe4Le4 | hash-t/src/lib.rs:347-373 | `u32::from_le_bytes(x.to_le_bytes()) == x` |
| Encoding.Le8FromLe8 | hash-t/src/lib.rs:347-373 | every 8 bytes are the little-endian bytes of the `u64` read from them |
| Encoding.FromLe8Le8 | hash-t/src/lib.rs:347-373 | `u64::from_le_bytes(x.to_le_bytes()) == x` |
| Encoding.JoinHalves | hash-t/src/lib.rs:347-373 | a `u128` is rebuilt from its low and high 64-bit halves |
| Encoding.HalvesJoin | hash-t/src/lib.rs:347-373 | the halves of the `u128` built from two halves are those halves |
| Encoding.Le16FromLe16 | hash-t/src/lib.rs:347-373 | every 16 bytes are the little-endian bytes of the `u128` read from them |
| Encoding.FromLe16Le16 | hash-t/src/lib.rs:347-373 | `u128::from_le_bytes(x.to_le_bytes()) == x` |
| Encoding.LeBytes | hash-t/src/lib.rs:347-373 | `to_le_bytes` of an integer has as many bytes as its type is wide |
| Encoding.FromLeBytes | hash-t/src/lib.rs:347-373 | `from_le_bytes` of a type yields a value of that type |
| Encoding.FromLeLe | hash-t/src/lib.rs:347-373 | for every integer type, reading back its little-endian bytes gives the integer |
| Encoding.LeFromLe | hash-t/src/lib.rs:347-373 | for every integer type, the little-endian bytes of the value read from some bytes are those bytes |
| Encoding.ToBytes | src/lib.rs:128-151 | `to_ne_bytes`, `to_le_bytes` and `to_be_bytes` have the width of the type |
| Encoding.FromBytes | src/lib.rs:128-151 | `from_ne_bytes` and its kin yield a value of the type read |
| Encoding.ToBytesFromBytes | src/lib.rs:128-151 | in each of the three orders, an integer's bytes read back, in that order, as the integer |
| Encoding.FromBytesToBytes | src/lib.rs:128-151 | in each order, the bytes of the integer read from some bytes are those bytes |
| Encoding.Orders | src/lib.rs:128-151 | big-endian bytes are the little-endian ones reversed; native bytes are the little-endian ones on the host |
| Encoding.ToBytesInjective | src/lib.rs:128-151 | two integers of one type with the same bytes in one order are equal |
| Fnv.OffsetBasis | hash-t/src/fnv.rs:142-170 | each width's offset basis is a value of that width |
| Fnv.Prime | hash-t/src/fnv.rs:142-170 | each width's prime is a value of that width |
| Fnv.MulPrime | hash-t/src/fnv.rs:314-327 | the wrapping product with the prime stays within the width |
| Fnv.Mask | hash-t/src/fnv.rs:314-327 | reducing modulo 2^bits leaves a value of the width, and leaves a value already of the width unchanged |
| Fnv.MulPrimeIsProduct | hash-t/src/fnv.rs:314-327 | the multiply by the width's literal prime is the product with `Prime(w)` (the table's `PRIME`) reduced modulo 2^bits, so the primes of the table are the ones every hash uses |
| Fnv.Step | hash-t/src/fnv.rs:314-327 | one byte of V1 (multiply, then xor) or V1A (xor, then multiply) keeps the accumulator within its width |
| Fnv.Fold | hash-t/src/fnv.rs:314-327 | the fold over a byte string keeps the accumulator within its width |
| Fnv.FoldAppend | hash-t/src/fnv.rs:314-327 | writing `x` then `y` leaves the accumulator that writing `x + y` leaves |
| Fnv.FoldSnoc | hash-t/src/fnv.rs:314-327 | one more byte is one more step |
| Fnv.WriteBytes | hash-t/src/fnv.rs:314-327 | the byte loop of `write` computes the fold of its bytes from the accumulator |
| Fnv.Hasher.New | hash-t/src/fnv.rs:288-303 | `Fnv::new` starts at the width's offset basis with nothing written |
| Fnv.Hasher.WithSeed | hash-t/src/fnv.rs:288-303 | `Fnv::with_seed(s)` starts at `s` with nothing written |
| Fnv.Hasher.Write | hash-t/src/fnv.rs:314-327 | the accumulator becomes the fold of the new bytes; the recorded stream grows by exactly those bytes |
| Fnv.Hasher.Finish | hash-t/src/fnv.rs:329-334 | `finish` is the fold of the seed over everything written, whatever the split into `write` calls |
| Fnv.BuildHasher.Build | hash-t/src/fnv.rs:48-55 | `build_hasher` gives a fresh hasher seeded with the stored seed |
| Fnv.NewBuildHasher | hash-t/src/fnv.rs:27-39 | `FnvBuildHasher::new` stores the width's offset basis |
| Fnv.BuildDefault | hash-t/src/fnv.rs:72-79 | `FnvDefaultBuildHasher` builds a fresh `Fnv::new` |
| Fnv.HashBytes | hash-t/src/fnv.rs:388-464 | hashing a byte string one `write_u8` at a time gives its fold from the builder's seed |
| Fnv.EmptyIsSeed | hash-t/src/fnv.rs:378-386 | the empty input hashes to the seed: the offset basis by default, any custom seed otherwise |
| Fnv.Fnv0Check | hash-t/src/fnv.rs:343-368 | FNV-1 from 0 over `chongo <Landon Curt Noll> /\../\` gives the offset basis, for u32, u64 and u128 |
| Fnv.Fnv1a64KnownAnswers | hash-t/src/fnv.rs:388-464 | FNV-1a-64 of "a" and "abc" is 0xaf63dc4c8601ec8c and 0xe71fa2190541574b; "a" with seed 0x5555555555555555 is 0x555533ffffffc75c |
| Fnv1a.OffsetBasis | src/fnv1a.rs:105-130 | each `FnvConfig` offset basis is a value of its width |
| Fnv1a.Prime | src/fnv1a.rs:105-130 | each `FnvConfig` prime is a value of its width |
| Fnv1a.ConfigIsStandard | src/fnv1a.rs:105-130 | the root crate's u32, u64 and u128 constants are the standard FNV offset bases and primes |
| Fnv1a.MulPrime | src/fnv1a.rs:237-243 | `wrapping_mul(PRIME)` is the standard FNV multiply of the width |
| Fnv1a.Step | src/fnv1a.rs:237-243 | one byte of `write` (xor, then multiply) is the standard FNV-1a step |
| Fnv1a.WriteBytes | src/fnv1a.rs:237-243 | the loop of `write` computes the FNV-1a fold of its bytes |
| Fnv1a.Hasher.New | src/fnv1a.rs:220-223 | `Fnv1a::new` starts at the offset basis with nothing written |
| Fnv1a.Hasher.WithSeed | src/fnv1a.rs:225-228 | `Fnv1a::with_seed(s)` starts at `s` with nothing written |
| Fnv1a.Hasher.Write | src/fnv1a.rs:237-243 | the accumulator becomes the FNV-1a fold of the new bytes; the stream grows by exactly those bytes |
| Fnv1a.Hasher.Finish | src/fnv1a.rs:245-247 | `finish` is the FNV-1a fold of the seed over everything written |
| Fnv1a.BuildHasher.Build | src/fnv1a.rs:36-42 | `build_hasher` gives a fresh hasher seeded with the stored seed |
| Fnv1a.NewBuildHasher | src/fnv1a.rs:18-34 | `Fnv1aBuildHasher::new` and `default` store the standard offset basis |
| Fnv1a.BuildDefault | src/fnv1a.rs:48-54 | `Fnv1aDefaultBuildHasher` builds a fresh `Fnv1a::new` |
| Fnv1a.HashBytes | src/fnv1a.rs:258-264 | `hash_one` of a byte string is its FNV-1a fold from the builder's seed |
| Fnv1a.KnownAnswers | src/fnv1a.rs:266-318 | the empty input gives the seed (default and 0x5555555555555555); "a", "abc" and custom-seed "a" give the table's values |
| Xxh64.StripeLanes | anyhash/src/xxh64.rs:143-150 | lanes that each took their `round` with word i of a full buffer are the buffer's stripe |
| Xxh64.Round | anyhash/src/xxh64.rs:116-121 | definition, no contract: `(acc + lane * PRIME64_2).rotl(31) * PRIME64_1`, wrapping; pinned by the known answers below |
| Xxh64.Merge | anyhash/src/xxh64.rs:123-128 | definition, no contract: `(acc ^ round(0, n)) * PRIME64_1 + PRIME64_4`, wrapping; pinned by `Xxh64.KnownAnswerStripe` |
| Xxh64.InitLanes | anyhash/src/xxh64.rs:92-105 | definition, no contract: the four lanes `seed + P1 + P2`, `seed + P2`, `seed`, `seed - P1`; `Xxh64.SeedLaneKept` states that lane 2 is the seed |
| Xxh64.Converge | anyhash/src/xxh64.rs:160-169 | definition, no contract: the rotated sum of the lanes, then four merges in lane order; pinned by `Xxh64.KnownAnswerStripe` |
| Xxh64.Word8Step | anyhash/src/xxh64.rs:172-179 | definition, no contract: the step for one 8-byte word of the buffered tail |
| Xxh64.Word4Step | anyhash/src/xxh64.rs:180-190 | definition, no contract: the step for the 4-byte word of the tail |
| Xxh64.ByteStep | anyhash/src/xxh64.rs:192-197 | definition, no contract: the step for one leftover byte |
| Xxh64.TailFold | anyhash/src/xxh64.rs:172-197 | definition, no contract: 8-byte words while at least 8 bytes remain, then one 4-byte word if at least 4 remain, then single bytes; `Xxh64.TailFoldWord8` and `Xxh64.TailFoldWord4` state the two cuts |
| Xxh64.Avalanche | anyhash/src/xxh64.rs:199-201 | definition, no contract: the closing xor-shift and multiply rounds |
| Xxh64.Start | anyhash/src/xxh64.rs:156-171 | definition, no contract: below 32 bytes in total, lane 2 plus PRIME64_5, otherwise the converged lanes; then plus the total length |
| Xxh64.Final | anyhash/src/xxh64.rs:155-201 | definition, no contract: `finish` as a function of lanes, total length and buffered tail |
| Xxh64.Digest | anyhash/src/xxh64.rs:141-201 | definition, no contract: the digest of a whole stream, every whole 32-byte stripe absorbed and the rest as tail; `Xxh64.Hasher.Finish` is proved equal to it |
| Xxh64.StripesSnoc | anyhash/src/xxh64.rs:141-151 | absorbing one more stripe after stripe-aligned input is one more `Stripe` |
| Xxh64.Aligned | anyhash/src/xxh64.rs:107-114 | the stripe-covered prefix is a multiple of 32 within 32 bytes of the end |
| Xxh64.AlignedAt | anyhash/src/xxh64.rs:107-114 | any stripe-aligned cut within 32 bytes of the end is that prefix |
| Xxh64.ShortInput | anyhash/src/xxh64.rs:156-158 | below 32 bytes the digest is taken from the seed's initial lanes with all bytes in the tail |
| Xxh64.BufferKeepsInv | anyhash/src/xxh64.rs:107-114 | bytes that leave the buffer short of 32 are only buffered, and the invariant holds |
| Xxh64.FillKeepsInv | anyhash/src/xxh64.rs:143-150 | bytes that fill the buffer make every lane absorb it and empty the buffer, and the invariant holds |
| Xxh64.EmptyBufferInv | anyhash/src/xxh64.rs:141-151 | after stripe-aligned input the lanes have absorbed every stripe and the buffer is empty |
| Xxh64.TakenRest | anyhash/src/xxh64.rs:107-114 | the bytes `fill_buffer` took followed by those it left are its input |
| Xxh64.Hasher.WithSeed | anyhash/src/xxh64.rs:92-105 | the lanes start at [s+P1+P2, s+P2, s, s-P1]; buffer and counters empty |
| Xxh64.Hasher.New | anyhash/src/xxh64.rs:86-89 | `new` is `with_seed(0)` |
| Xxh64.Hasher.FillBuffer | anyhash/src/xxh64.rs:107-114 | `fill_buffer` moves min(len, 32 - buffer_len) bytes to the buffer's end and reports whether it is full |
| Xxh64.Hasher.AbsorbBuffer | anyhash/src/xxh64.rs:146-148 | each lane i takes a `round` with little-endian word i of the buffer |
| Xxh64.Hasher.Write | anyhash/src/xxh64.rs:141-151 | `total_len` grows by the input length; the invariant is kept; the stream grows by exactly the bytes |
| Xxh64.Hasher.FillAndAbsorb | anyhash/src/xxh64.rs:143-150 | one turn of the loop consumes at least one byte and keeps the absorbed-bytes invariant |
| Xxh64.Hasher.Finish | anyhash/src/xxh64.rs:155-201 | `finish` is XXH64 of everything written under the seed, whatever the split into `write` calls |
| Xxh64.StateDeterminedByStream | anyhash/src/xxh64.rs:141-151 | two hashers with one seed fed the same bytes have the same lanes, buffered bytes, `total_len` and digest |
| Xxh64.SeedLaneKept | anyhash/src/xxh64.rs:156-158 | below 32 bytes written the lanes are untouched, so lane 2 still holds the seed |
| Xxh64.BuildHasher.Build | anyhash/src/xxh64.rs:34-41 | `build_hasher` gives a fresh `with_seed` of the stored seed |
| Xxh64.NewBuildHasher | anyhash/src/xxh64.rs:20-31 | `Xxh64BuildHasher::new` stores seed 0 |
| Xxh64.HashBytes | anyhash/src/xxh64.rs:210-216 | `hash_one` of a byte string one `write_u8` at a time is its XXH64 digest under the builder's seed |
| Xxh64.KnownAnswersEmpty | anyhash/src/xxh64.rs:218-226 | the empty input gives 0xef46db3751d8e999 (seed 0) and 0x28e7a0126181c619 (seed 0x5555555555555555) |
| Xxh64.KnownAnswerA | anyhash/src/xxh64.rs:230 | "a" gives 0xd24ec4f1a98c6e5b |
| Xxh64.KnownAnswerAbc | anyhash/src/xxh64.rs:232 | "abc" gives 0x44bc2cf5ad770999 |
| Xxh64.TailFoldWord8 | anyhash/src/xxh64.rs:172-179 | a tail that starts with a whole 8-byte word folds that word first, read little-endian |
| Xxh64.TailFoldWord4 | anyhash/src/xxh64.rs:180-197 | a tail of 4 to 7 bytes folds its first 4 bytes as one little-endian word, then the rest byte by byte |
| Xxh64.OneStripe | anyhash/src/xxh64.rs:141-171 | a 32-byte input is one stripe absorbed into the seed's lanes, then finished with an empty tail |
| Xxh64.KnownAnswerTwelve | anyhash/src/xxh64.rs:241 | "abcdefghijkl" gives 0x4b09b7d3a233d4b3 (the 8-byte word, the 4-byte word and the empty byte tail) |
| Xxh64.KnownAnswerStripe | anyhash/src/xxh64.rs:261 | "abcdefghijklmnopqrstuvwxyz012345" gives 0xbf2cd639b4143b80 (one stripe, the four merges, empty tail) |
| Spooky.Mix | hash-t/src/spooky.rs:213-228 | definition, no contract: the twelve add, xor, rotate, add steps of `mix` with their rotation constants, in source order |
| Spooky.ShortMix | hash-t/src/spooky.rs:320-333 | definition, no contract: the eleven steps of `short_mix`; pinned by `Spooky.KnownAnswerV1Sixteen` |
| Spooky.ShortEnd | hash-t/src/spooky.rs:335-348 | definition, no contract: the eleven steps of `short_end`; pinned by every known answer below |
| Spooky.EndPartial | hash-t/src/spooky.rs:370-383 | definition, no contract: the twelve steps of `end_partial` |
| Spooky.End | hash-t/src/spooky.rs:350-368 | definition, no contract: for V2 the final block is added word by word first, then three `end_partial` rounds |
| Spooky.Short | hash-t/src/spooky.rs:230-318 | definition, no contract: whole 32-byte chunks, an optional 16-byte half, the length word (replacing h3 in V1, added in V2), the fallthrough table and `short_end` |
| Spooky.MixBlocks | hash-t/src/spooky.rs:490-501 | definition, no contract: `mix` of every whole 96-byte block in order; `Spooky.MixBlocksSnoc` and `Spooky.MixBlocksAppend` state how it splits |
| Spooky.Init12 | hash-t/src/spooky.rs:443-458 | definition, no contract: the twelve-word state `seed1, seed2, SC_CONST` repeated four times that the first long write starts from |
| Spooky.Final | hash-t/src/spooky.rs:525-568 | definition, no contract: a second buffered block mixed first, the rest zero-padded with its length in the last byte, mixed again in V1 only, then `end` |
| Spooky.Hash128 | hash-t/src/spooky.rs:521-568 | definition, no contract: `short` below 192 bytes, otherwise every whole 96-byte block mixed into `Init12` and the 0 to 95 leftover bytes passed to `Final`; `Spooky.Hasher.Finish128` is proved equal to it |
| Spooky.Pack | hash-t/src/spooky.rs:568 | the 128-bit digest `h0 \| h1 << 64` has halves h0 and h1 |
| Spooky.PackHalves | hash-t/src/spooky.rs:209-211 | a 128-bit seed is the value packed from the two halves `with_seed_128` splits it into |
| Spooky.Low32OfLow64 | hash-t/src/spooky.rs:393-415 | the 32-bit digest is the low 32 bits of the 64-bit one |
| Spooky.FallFrom | hash-t/src/spooky.rs:276-312 | the fallthrough table, entered at any label, touches only h2 and h3 |
| Spooky.Fallthrough | hash-t/src/spooky.rs:264-312 | the table on the 0 to 15 leftover bytes touches only h2 and h3 |
| Spooky.FallthroughEmpty | hash-t/src/spooky.rs:306-310 | with no leftover bytes the table adds 0xdeadbeefdeadbeef to h2 and h3 |
| Spooky.MixBlocksSnoc | hash-t/src/spooky.rs:493-501 | one more whole block after block-aligned input is one more `mix` |
| Spooky.MixBlocksAppend | hash-t/src/spooky.rs:493-501 | absorbing block-aligned input in two parts is absorbing it at once |
| Spooky.Pad | hash-t/src/spooky.rs:542-550 | the last block is the leftover bytes, zeros, and the leftover count in byte 95 |
| Spooky.Aligned | hash-t/src/spooky.rs:490-491 | the block-covered prefix is a multiple of 96 within 96 bytes of the end |
| Spooky.AlignedAt | hash-t/src/spooky.rs:490-491 | any block-aligned cut within 96 bytes of the end is that prefix |
| Spooky.FinalAnyCut | hash-t/src/spooky.rs:521-569 | whatever block-aligned prefix has been mixed, `finish` of the state and the rest is the hash of the message |
| Spooky.MixTwoBlocks | hash-t/src/spooky.rs:463-483 | absorbing a completed 192-byte buffer is mixing its first, then its second block |
| Spooky.Hasher.WithSeed | hash-t/src/spooky.rs:194-205 | state words 0 and 1 hold the seeds, everything else is zero |
| Spooky.Hasher.New | hash-t/src/spooky.rs:182-190 | `new` is the zero state, the same as `with_seed(0, 0)` |
| Spooky.Hasher.WithSeed128 | hash-t/src/spooky.rs:209-211 | `with_seed_128(s)` is `with_seed` of the low and the high half of `s` |
| Spooky.Hasher.Write | hash-t/src/spooky.rs:419-518 | `length` grows by the input length; below 192 buffered bytes only the buffer changes; otherwise `remainder` becomes the bytes past whole blocks; the invariant is kept |
| Spooky.Hasher.WriteBuffered | hash-t/src/spooky.rs:429-441 | the bytes go to the buffer at `remainder`; `length` and `remainder` grow by the input length; the state stays |
| Spooky.Hasher.WriteMixing | hash-t/src/spooky.rs:443-518 | the mixing path keeps the invariant and leaves `remainder` = (remainder + len) mod 96 |
| Spooky.Hasher.Finish128 | hash-t/src/spooky.rs:521-569 | `finish` is SpookyHash of everything written: the short path below 192 bytes, the padded final block otherwise |
| Spooky.Hasher.Finish64 | hash-t/src/spooky.rs:405-409 | the 64-bit `finish` is the low half of the 128-bit digest |
| Spooky.Hasher.Finish32 | hash-t/src/spooky.rs:393-397 | the 32-bit `finish` is the low 32 bits of the 128-bit digest |
| Spooky.MixingKeepsInv | hash-t/src/spooky.rs:443-518 | starting from the seeded or the stored state, the mixing path absorbs the whole blocks of buffer plus input and buffers the rest |
| Spooky.MixInput | hash-t/src/spooky.rs:463-511 | the mixing path mixes the completed buffer's two blocks, then every whole block of the input, and buffers the bytes after them |
| Spooky.MixingPath | hash-t/src/spooky.rs:463-501 | the completed buffer and the whole blocks of the rest are the whole blocks of buffer plus input |
| Spooky.TwoBlocks | hash-t/src/spooky.rs:472-483 | absorbing a 192-byte buffer is two `mix` calls, first block first |
| Spooky.SplitAligned | hash-t/src/spooky.rs:484-491 | the bytes left after the last whole block of the rest are those after the last whole block of buffer plus input |
| Spooky.StartState | hash-t/src/spooky.rs:443-460 | the first long write starts from (seed1, seed2, 0xdeadbeefdeadbeef) four times; later ones from the stored state |
| Spooky.AbsorbAppend | hash-t/src/spooky.rs:490-517 | absorbing more whole blocks continues from the state reached, and the unabsorbed rest is what is left |
| Spooky.MixAligned | hash-t/src/spooky.rs:492-501 | the aligned block loop mixes every whole 96-byte block of its input, in order |
| Spooky.BuildHasher.Build | hash-t/src/spooky.rs:84-109 | `build_hasher` gives a fresh `with_seed` of the stored seeds |
| Spooky.NewBuildHasher | hash-t/src/spooky.rs:67-69 | `SpookyBuildHasherV::new` stores the zero seeds, the same builder as `with_seed_128(0)` |
| Spooky.BuildHasherWithSeed128 | hash-t/src/spooky.rs:79-81 | `with_seed_128(s)` stores the halves of `s`, low half first |
| Spooky.DefaultBuildHasher.Build | hash-t/src/spooky.rs:118-143 | the default builder gives a fresh `new` |
| Spooky.HashBytes | hash-t/src/spooky.rs:657-663 | `hash_one` of a byte string, one byte per `write`, is the low 32 bits of its SpookyHash with zero seeds |
| Spooky.KnownAnswerV1Empty | hash-t/src/spooky.rs:580-581 | V1 of the empty input is 0xa24295ec |
| Spooky.KnownAnswerV2Empty | hash-t/src/spooky.rs:668-669 | V2 of the empty input is 0x6bf50919 |
| Spooky.KnownAnswerV1Byte | hash-t/src/spooky.rs:580-581 | V1 of the byte 0x80 is 0xfe3a05ce |
| Spooky.KnownAnswerV2Byte | hash-t/src/spooky.rs:668-669 | V2 of the byte 0x80 is 0x70de1d26 |
| Spooky.TwelveFallthrough | hash-t/src/spooky.rs:281-285 | entered at label 12 with 12 bytes, the table adds the 4-byte word to h3 and the 8-byte word to h2, both little-endian, and nothing else |
| Spooky.KnownAnswerV1Twelve | hash-t/src/spooky.rs:582 | V1 of the bytes 0x80 .. 0x8b is 0xd8f28a02 |
| Spooky.KnownAnswerV1Sixteen | hash-t/src/spooky.rs:583 | V1 of the bytes 0x80 .. 0x8f is 0x9cd96a73 (the 16-byte half, then the empty table) |
| Spooky.BlocksAsWritten | hash-t/src/spooky.rs:492-509 | on input at an 8-byte-aligned address every whole block is mixed; otherwise the state comes out unchanged |
| Spooky.UnalignedBlockLost | hash-t/src/spooky.rs:502-509 | a block of zeros moves the zero-seeded state when mixed, so the unaligned branch loses it |
| Writes.Fed | hash-t/src/lib.rs:400-446 | an integer write feeds exactly its type's width in bytes, a length prefix feeds 8 bytes, and every call other than `write` feeds at least one byte |
| Writes.FedAll | hash-t/src/lib.rs:400-446 | definition, no contract: the calls' bytes concatenated in call order; `Writes.FedAllAppend` states it splits over concatenation |
| Writes.FedAllSingle | hash-t/src/lib.rs:400-446 | one call feeds exactly its own bytes |
| Writes.FedAllSnoc | hash-t/src/lib.rs:400-446 | the last call feeds its bytes after those of the calls before it |
| Writes.FedAllAppend | hash-t/src/lib.rs:400-446 | calls made one after another feed the bytes of the first, then those of the second |
| Writes.ByteCalls | hash-t/src/impls.rs:108-133 | a `u8` slice makes one `write_u8` call per element |
| Writes.ByteCallsFeedBytes | hash-t/src/lib.rs:337-344 | hashing a byte slice element by element feeds exactly its bytes |
| Writes.IntWriteDecodes | hash-t/src/lib.rs:347-373 | the bytes of every integer write read back, in the order written, as the integer |
| Writes.NativeIsLittle | src/lib.rs:128-151 | on the host, native-order writes feed the same bytes as little-endian ones |
| Writes.StrWritesPrefixFree | hash-t/src/lib.rs:441-446 | two `write_str` calls followed by anything feed equal bytes only if the strings and what follows are equal |
| Writes.Recorder.constructor | anyhash/src/lib.rs:386-393 | a fresh hasher has nothing written |
| Writes.Recorder.Write | hash-t/src/lib.rs:405 | `write` absorbs its bytes, in order |
| Writes.Recorder.WriteU8 | hash-t/src/lib.rs:408-411 | `write_u8(i)` feeds exactly `[i]`, as in the root crate (src/lib.rs:161-164) and anyhash |
| Writes.Recorder.WriteI8 | hash-t/src/lib.rs:421-425 | `write_i8(i)` feeds exactly `[i as u8]`, as in the root crate (src/lib.rs:174-177) and anyhash |
| Writes.Recorder.WriteInt | hash-t/src/lib.rs:347-373 | each integer write feeds exactly the `to_ne_bytes`, `to_le_bytes` or `to_be_bytes` of its value, as in the root crate (src/lib.rs:128-151); anyhash's native writes are the `Native` case |
| Writes.Recorder.WriteLengthPrefix | hash-t/src/lib.rs:435-439 | `write_length_prefix(len)` feeds the native bytes of `len` as a `usize`, as in the root crate (src/lib.rs:187-193) |
| Writes.Recorder.WriteStr | hash-t/src/lib.rs:441-446 | `write_str(s)` feeds the bytes of `s`, then 0xff, as in the root crate (src/lib.rs:195-202) |
| Writes.Recorder.Apply | anyhash/src/lib.rs:222-294 | every write method of the trait feeds exactly the bytes `Fed` assigns to its call |
| Writes.Recorder.HashValue | hash-t/src/lib.rs:400-446 | a value's calls feed, in order, the bytes of each call |
| Writes.Recorder.HashSlice | hash-t/src/lib.rs:337-344 | `hash_slice` feeds the bytes of the elements' calls, element after element, as in anyhash and the root crate (src/lib.rs:116-125) |
| Writes.SliceStep | anyhash/src/lib.rs:331-340 | hashing one more element after the first k feeds the bytes of the first k + 1 |
| Writes.HashOne | hash-t/src/lib.rs:458-462 | `hash_one` of a fresh hasher finishes with the bytes the value's calls feed, as in anyhash (anyhash/src/lib.rs:366-372) and the root crate (src/lib.rs:213-218) |
| HashT.Fix | hash-t/src/lib.rs:465-524 | the wrapper never passes on `write_length_prefix` (it calls `write_usize` instead), and the only native-order integer write it leaves is that forwarded length prefix |
| HashT.FixKeepsLength | hash-t/src/lib.rs:465-524 | the wrapper changes the order of the bytes of a call, never their number |
| HashT.FixAll | hash-t/src/lib.rs:491-512 | the wrapper turns each call of a sequence into its fixed-order counterpart, one for one |
| HashT.FixAllSnoc | hash-t/src/lib.rs:491-512 | a wrapper's first i calls and then call i feed the bytes of its first i + 1 calls |
| HashT.WrapperFeeds | hash-t/src/lib.rs:465-524 | a wrapper feeds the bytes of a hasher whose native methods use its order, except the length prefix, which stays little-endian |
| HashT.LeWrapperTransparent | hash-t/src/lib.rs:465-524 | on the host `HasherLe` feeds exactly what the bare hasher would, for every call |
| HashT.BeLengthPrefixIsLittle | hash-t/src/lib.rs:593-596 | `HasherBe` writes a native `usize` big-endian but the same number as a length prefix little-endian |
| HashT.EndianHasher.Write | hash-t/src/lib.rs:482-484 | `write` is forwarded unchanged |
| HashT.EndianHasher.WriteU8 | hash-t/src/lib.rs:486-489 | `write_u8(i)` feeds `[i]` to the inner hasher |
| HashT.EndianHasher.WriteI8 | hash-t/src/lib.rs:500-503 | `write_i8(i)` feeds `[i as u8]` to the inner hasher |
| HashT.EndianHasher.WriteInt | hash-t/src/lib.rs:491-512 | native integer writes use the wrapper's order; explicit `_le` and `_be` writes keep theirs |
| HashT.EndianHasher.WriteLengthPrefix | hash-t/src/lib.rs:514-517 | the length prefix goes to the inner hasher's native `write_usize` |
| HashT.EndianHasher.WriteStr | hash-t/src/lib.rs:519-523 | `write_str(s)` feeds the bytes of `s`, then 0xff, to the inner hasher |
| HashT.EndianHasher.Apply | hash-t/src/lib.rs:465-524 | every call has, on the inner hasher, the effect of its fixed-order counterpart |
| HashT.EndianHasher.HashValue | hash-t/src/lib.rs:465-524 | a value hashed through the wrapper feeds the bytes of its calls' fixed-order counterparts |
| HashT.HashOne | hash-t/src/lib.rs:623-681 | `hash_one` of `BuildHasherLe` or `BuildHasherBe` finishes with the wrapper's bytes of the value's calls |
| AnyHash.EndianHasher.Write | anyhash/src/lib.rs:469-474 | `write` is forwarded unchanged |
| AnyHash.EndianHasher.WriteU8 | anyhash/src/lib.rs:236-240 | `write_u8(i)` feeds `[i]` |
| AnyHash.EndianHasher.WriteI8 | anyhash/src/lib.rs:251-255 | `write_i8(i)` feeds `[i as u8]` |
| AnyHash.EndianHasher.WriteInt | anyhash/src/lib.rs:282-293 | every integer write feeds the value's bytes in the wrapper's order |
| AnyHash.EndianHasher.WriteLengthPrefix | anyhash/src/lib.rs:266-271 | the length prefix is the wrapper's own `write_usize`, in the wrapper's order |
| AnyHash.EndianHasher.WriteStr | anyhash/src/lib.rs:273-279 | `write_str(s)` feeds the bytes of `s`, then 0xff |
| AnyHash.EndianHasher.Apply | anyhash/src/lib.rs:222-294 | every call feeds its bytes with native order replaced by the wrapper's |
| AnyHash.EndianHasher.HashValue | anyhash/src/lib.rs:447-476 | a value hashed through the wrapper feeds its calls' bytes in the wrapper's order |
| AnyHash.BuildHasherDefault | anyhash/src/lib.rs:386-393 | `BuildHasherDefault` builds `H::default()`, a hasher with nothing written |
| AnyHash.HashOne | anyhash/src/lib.rs:558-621 | `hash_one` of `BuildHasherLe` or `BuildHasherBe` finishes with the value's calls' bytes in that order |
| AnyHash.LengthPrefixInOrder | anyhash/src/lib.rs:266-271 | a wrapper's length prefix reads back, in the wrapper's order, as the length |
| AnyHash.LeWrappersAgree | anyhash/src/lib.rs:447-476 | the two crates' `HasherLe` feed the same bytes for every call |
| AnyHash.BeWrappersDiffer | anyhash/src/lib.rs:506-535 | the two crates' `HasherBe` agree on every call except the length prefix, whose bytes are reversed |
| AnyHash.BeLengthPrefixOfOne | anyhash/src/lib.rs:266-271 | for length 1, anyhash's `HasherBe` prefix is [0,0,0,0,0,0,0,1] and hash-t's is [1,0,0,0,0,0,0,0] |

## Left out

- Spooky: `mix`, `short_mix`, `short_end` and `end_partial` are modelled exactly, but no property of them on their own is proved. Their inverses are out of reach of the solver for symbolic inputs. Only congruence over whole blocks is proved, plus known answers on literal inputs.
- Spooky.Fallthrough: proved to touch only h2 and h3. That it adds the zero-padded little-endian words of the leftover bytes is not proved, only stated by its definition. The table is checked on the 0-, 1- and 12-byte known answers, and the 12-byte label on its own by `Spooky.TwelveFallthrough`.
- Spooky: the raw memory copies in `write` and the padding `finish` writes through a `*const` in `&self`. The buffer is a byte sequence, and `finish` is a function of a copy of it. The padding lies at or past `remainder`, where the model never reads buffered bytes.
- Spooky.Hasher.Write: models the aligned branch of the whole-block loop. The unaligned branch, which never mixes its blocks, is `Spooky.BlocksAsWritten` (see Findings). Which branch runs depends on where the caller's slice lies in memory, which is not modelled.
- Spooky: `remainder` is a `u8` and `length` a `usize`. Both are kept as exact counts. `remainder` stays below 192, so it never wraps. `length` would wrap only beyond 2^64 bytes.
- Xxh64: `total_len` is kept as an exact count. `finish` reads it modulo 2^64 (`TotalMod`), as the `u64` wrapping counter of the source does.
- Host byte order: the host is taken to be little-endian with a 64-bit `usize`. `to_ne_bytes`, Spooky's native word reads and XXH64's `to_le` therefore all read little-endian. A big-endian host is not modelled.
- Signed integers: `i8` .. `isize` are modelled by their two's-complement bits (`i as uN`), whose bytes are the same.
- FNV widths: the `bnum` widths U256, U512 and U1024 of both FNV modules rely on a foreign big-integer library and are not modelled. Only u32, u64 and u128 are.
- Inner hashers: the inner hasher of the write layer is a `Writes.Recorder`, whose `finish` is the bytes written. Any engine's `finish` is a function of those bytes, as the engines' `Finish` contracts show.
- `Hash` impls: a value's `Hash` impl is modelled as the sequence of write calls it makes. hash-t/src/impls.rs and anyhash/src/impls.rs are not part of this model beyond the fact that a `u8` slice makes one `write_u8` per byte.
- The root crate's `Hasher` trait (src/lib.rs) has the same defaults as hash-t's, so `Writes` models both. Its `write_length_prefix` and `write_str` exist only with the `nightly` feature. That gate is not modelled.
- The `internal` bridges to `core::hash::Hasher`, the proc-macro crates, the `HashMap` and `HashSet` aliases, and the `Debug`, `Clone` and `Default` impls are not modelled: they carry no hashing logic.
- Known answers: the other vectors of the test tables are not proved. No proved vector reaches Spooky's long path (192 bytes or more, and so `mix`, `end` and `end_partial`), its whole 32-byte short chunks, V2 beyond one byte, or the table's labels other than 0, 1 and 12; nor XXH64 beyond one stripe, or a custom seed on a non-empty input. The solver evaluates each vector in full, and the longer ones are beyond its resource limit.
- Countdown gates: `Xxh64.RoundAt`, `Spooky.MixAt` and their kin, and `Writes.FedAt`, call themselves a fixed number of times before computing. They are equal to the functions they gate and change no result. They only keep proofs about buffers and sequences from unfolding the arithmetic.

## Findings

| source | as written | input that shows it | evidently intended | confidence | as-written member | corrected member |
|---|---|---|---|---|---|---|
| hash-t/src/spooky.rs:502-509 | when the input of the whole-block loop does not start at an 8-byte-aligned address, each 96-byte block is copied into `data` but never passed to `mix`, so the state skips every whole block of that write | an empty hasher with zero seeds given one `write` of 192 zero bytes that start at an address not a multiple of 8: the write takes the mixing path with `remainder` 0, and neither block is mixed, although mixing the first one alone already changes the initial state | mix every whole block, as the aligned branch at lines 493-501 and the reference SpookyHash do | not executed | Spooky.BlocksAsWritten, Spooky.UnalignedBlockLost | Spooky.MixInput, Spooky.Hasher.Write |

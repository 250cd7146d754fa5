/**
 * The default write methods of a hasher, as the three crates' hasher traits
 * define them (`Hasher<T>` in hash-t and in the root crate, `HasherWrite` in
 * anyhash): every method turns its argument into bytes and hands them to the
 * one method an implementation must supply, `write`. That hasher is modelled
 * by the bytes it receives: a `Recorder` keeps the stream of bytes handed to
 * `write`, which is all any `finish` can depend on.
 */
module Writes {
  import opened Bytes
  import opened Encoding

  /**
   * One call of a write method. `WriteInt` stands for `write_u16` ..
   * `write_isize` (order `Native`) and their `_le` and `_be` variants
   * (`Little`, `Big`); a signed argument is given by its bits (`i as uN`),
   * and `i8` by its bits too.
   */
  datatype Call =
    | Write(bytes: seq<byte>)
    | WriteU8(u8: byte)
    | WriteI8(i8: byte)
    | WriteInt(x: Int, order: Order)
    | WriteLengthPrefix(len: bv64)
    | WriteStr(s: seq<byte>)
  {
    /** A call the native-order `HasherWrite` of anyhash offers: no explicit `_le` or `_be`. */
    predicate NativeOnly()
    {
      WriteInt? ==> order == Native
    }
  }

  /**
   * The bytes call `c` hands to `write` when the native-named integer
   * methods encode in order `ne`: `Native` for the trait defaults.
   */
  function Fed(c: Call, ne: Order): (r: seq<byte>)
    ensures c.WriteInt? ==> |r| == Size(WidthOf(c.x))
    ensures c.WriteLengthPrefix? ==> |r| == 8
    ensures !c.Write? ==> |r| >= 1
  {
    match c
    case Write(bytes) => bytes
    case WriteU8(i) => [i]
    case WriteI8(i) => [i]
    case WriteInt(x, order) => ToBytes(x, if order == Native then ne else order)
    case WriteLengthPrefix(len) => ToBytes(Usize(len), ne)
    case WriteStr(s) => StrBytes(s)
  }

  /** The bytes a sequence of calls hands to `write`, in call order. */
  function FedAll(cs: seq<Call>, ne: Order): seq<byte>
  {
    if cs == [] then [] else FedAll(cs[..|cs| - 1], ne) + FedAt(cs[|cs| - 1], ne, 1)
  }

  /**
   * `Fed`, reached through a countdown of `n`, so that proofs about
   * sequences of calls never unfold the integer encoders.
   */
  function FedAt(c: Call, ne: Order, n: nat): seq<byte>
  {
    if n > 0 then FedAt(c, ne, n - 1) else Fed(c, ne)
  }

  /** One call feeds its own bytes. */
  lemma FedAllSingle(c: Call, ne: Order)
    ensures FedAll([c], ne) == Fed(c, ne)
  {
    FedAllSnoc([], c, ne);
    assert [] + [c] == [c];
  }

  /** The last call of a sequence feeds its bytes after those of the calls before it. */
  lemma FedAllSnoc(cs: seq<Call>, c: Call, ne: Order)
    ensures FedAll(cs + [c], ne) == FedAll(cs, ne) + Fed(c, ne)
  {
    assert (cs + [c])[..|cs|] == cs;
    assert FedAt(c, ne, 1) == FedAt(c, ne, 0);
  }

  /** Calls made one after the other feed the bytes of the first, then those of the second. */
  lemma {:induction false} FedAllAppend(a: seq<Call>, b: seq<Call>, ne: Order)
    ensures FedAll(a + b, ne) == FedAll(a, ne) + FedAll(b, ne)
    decreases |b|
  {
    if b == [] {
      assert a + b == a;
    } else {
      var n := |b| - 1;
      var ab := a + b;
      assert ab[..|ab| - 1] == a + b[..n];
      assert ab[|ab| - 1] == b[n];
      FedAllAppend(a, b[..n], ne);
      var x, y, z := FedAll(a, ne), FedAll(b[..n], ne), FedAt(b[n], ne, 1);
      assert FedAll(ab, ne) == (x + y) + z;
      assert FedAll(b, ne) == y + z;
      assert (x + y) + z == x + (y + z);
    }
  }

  /**
   * A stream that holds the bytes of the first `i` calls, then those of
   * call `i`, holds the bytes of the first `i + 1`.
   */
  lemma FedAllStep(s0: seq<byte>, s1: seq<byte>, s2: seq<byte>, ne: Order, cs: seq<Call>, i: nat)
    requires i < |cs|
    requires s1 == s0 + FedAll(cs[..i], ne)
    requires s2 == s1 + FedAll([cs[i]], ne)
    ensures s2 == s0 + FedAll(cs[..i + 1], ne)
  {
    assert cs[..i + 1][..i] == cs[..i];
    var x, y := FedAll(cs[..i], ne), FedAt(cs[i], ne, 1);
    assert (s0 + x) + y == s0 + (x + y);
  }

  /** The calls `Hash::hash_slice` makes for a slice of `u8`: one `write_u8` per element. */
  function ByteCalls(bs: seq<byte>): (cs: seq<Call>)
    ensures |cs| == |bs|
  {
    seq(|bs|, i requires 0 <= i < |bs| => WriteU8(bs[i]))
  }

  /**
   * Hashing a byte slice element by element feeds exactly its bytes, as if
   * written at once: this is how the engines' known answers feed their inputs.
   */
  lemma {:induction false} ByteCallsFeedBytes(bs: seq<byte>, ne: Order)
    ensures FedAll(ByteCalls(bs), ne) == bs
    decreases |bs|
  {
    if bs != [] {
      var n := |bs| - 1;
      assert ByteCalls(bs) == ByteCalls(bs[..n]) + [WriteU8(bs[n])];
      ByteCallsFeedBytes(bs[..n], ne);
      FedAllSnoc(ByteCalls(bs[..n]), WriteU8(bs[n]), ne);
      assert bs == bs[..n] + [bs[n]];
    }
  }

  /** The bytes of an integer write read back, in the order written, as the integer. */
  lemma IntWriteDecodes(x: Int, order: Order, ne: Order)
    ensures var o := if order == Native then ne else order;
      FromBytes(WidthOf(x), o, Fed(WriteInt(x, order), ne)) == x
  {
    ToBytesFromBytes(x, if order == Native then ne else order);
  }

  /**
   * On a little-endian host the native order is little-endian: the trait
   * defaults feed the same bytes as a hasher whose native methods encode
   * little-endian.
   */
  lemma NativeIsLittle(c: Call)
    ensures Fed(c, Native) == Fed(c, Little)
  {
    match c
    case WriteInt(x, order) => Orders(x);
    case WriteLengthPrefix(len) => Orders(Usize(len));
    case _ =>
  }

  /**
   * `write_str` is prefix-free: when two strings (UTF-8, so without 0xff)
   * are written and followed by anything, equal streams mean equal strings
   * and equal continuations.
   */
  lemma StrWritesPrefixFree(s: seq<byte>, t: seq<byte>, x: seq<byte>, y: seq<byte>, ne: Order)
    requires NoFF(s) && NoFF(t)
    requires Fed(WriteStr(s), ne) + x == Fed(WriteStr(t), ne) + y
    ensures s == t && x == y
  {
    StrBytesPrefixFree(s, t, x, y);
  }

  /** A hasher whose trait default methods feed a `write` that records its bytes. */
  class Recorder {
    /** Every byte handed to `write` so far, in order. */
    var stream: seq<byte>

    /** A fresh hasher (`H::default()` or a `build_hasher`): nothing written. */
    constructor ()
      ensures stream == []
    {
      stream := [];
    }

    /** `write`: the hasher absorbs the bytes. */
    method Write(bytes: seq<byte>)
      modifies this
      ensures stream == old(stream) + bytes
    {
      stream := stream + bytes;
    }

    /** `write_u8(i)`: `write(&[i])`. */
    method WriteU8(i: byte)
      modifies this
      ensures stream == old(stream) + [i]
    {
      Write([i]);
    }

    /** `write_i8(i)`: `write(&[i as u8])`; `i` is given by its bits. */
    method WriteI8(i: byte)
      modifies this
      ensures stream == old(stream) + [i]
    {
      Write([i]);
    }

    /** `write_u16` .. `write_isize` and their `_le` and `_be` forms: `write(&i.to_ne_bytes())` and its kin. */
    method WriteInt(x: Int, order: Order)
      modifies this
      ensures stream == old(stream) + ToBytes(x, order)
    {
      Write(ToBytes(x, order));
    }

    /** `write_length_prefix(len)`: `write_usize(len)`, in native order. */
    method WriteLengthPrefix(len: bv64)
      modifies this
      ensures stream == old(stream) + ToBytes(Usize(len), Native)
    {
      WriteInt(Usize(len), Native);
    }

    /** `write_str(s)`: the string's bytes, then `write_u8(0xff)`. */
    method WriteStr(s: seq<byte>)
      modifies this
      ensures stream == old(stream) + StrBytes(s)
    {
      Write(s);
      WriteU8(0xff);
    }

    /** One call of any write method. */
    method Apply(c: Call)
      modifies this
      ensures stream == old(stream) + Fed(c, Native)
    {
      match c
      case Write(bytes) => Write(bytes);
      case WriteU8(i) => WriteU8(i);
      case WriteI8(i) => WriteI8(i);
      case WriteInt(x, order) => WriteInt(x, order);
      case WriteLengthPrefix(len) => WriteLengthPrefix(len);
      case WriteStr(s) => WriteStr(s);
    }

    /** `x.hash(self)` for a value whose `Hash` impl makes the calls `calls`, in order. */
    method HashValue(calls: seq<Call>)
      modifies this
      ensures stream == old(stream) + FedAll(calls, Native)
    {
      for i := 0 to |calls|
        invariant stream == old(stream) + FedAll(calls[..i], Native)
      {
        ghost var before := stream;
        Apply(calls[i]);
        FedAllSingle(calls[i], Native);
        FedAllStep(old(stream), before, stream, Native, calls, i);
      }
      assert calls[..|calls|] == calls;
    }

    /** `Hash::hash_slice`: each element hashed in turn, element `k` making the calls `data[k]`. */
    method HashSlice(data: seq<seq<Call>>)
      modifies this
      ensures stream == old(stream) + FedAll(Concat(data), Native)
    {
      for k := 0 to |data|
        invariant stream == old(stream) + FedAll(Concat(data[..k]), Native)
      {
        HashValue(data[k]);
        SliceStep(old(stream), data, k);
      }
      assert data[..|data|] == data;
    }

    /** `finish`: the digest of everything written, here the bytes themselves. */
    function Finish(): seq<byte>
      reads this
    {
      stream
    }
  }

  /** The calls of the elements of a slice, one element after the other. */
  function Concat(data: seq<seq<Call>>): seq<Call>
  {
    if data == [] then [] else Concat(data[..|data| - 1]) + data[|data| - 1]
  }

  /** Hashing element `k` of a slice after the ones before it feeds the bytes of the first `k + 1`. */
  lemma SliceStep(s0: seq<byte>, data: seq<seq<Call>>, k: nat)
    requires k < |data|
    ensures (s0 + FedAll(Concat(data[..k]), Native)) + FedAll(data[k], Native)
         == s0 + FedAll(Concat(data[..k + 1]), Native)
  {
    assert data[..k + 1][..k] == data[..k];
    var x, y := FedAll(Concat(data[..k]), Native), FedAll(data[k], Native);
    FedAllAppend(Concat(data[..k]), data[k], Native);
    assert (s0 + x) + y == s0 + (x + y);
  }

  /**
   * `BuildHasher::hash_one`: a fresh hasher, the value hashed into it once,
   * then `finish`; the digest is that of the bytes the value's calls feed.
   */
  method HashOne(calls: seq<Call>) returns (r: seq<byte>)
    ensures r == FedAll(calls, Native)
  {
    var h := new Recorder();
    h.HashValue(calls);
    r := h.Finish();
  }
}

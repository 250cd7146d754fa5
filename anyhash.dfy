/**
 * The endian-fixing wrappers of anyhash's `HasherWrite`. anyhash's trait
 * has only native-order integer methods; `HasherLe` and `HasherBe` define
 * all of them again with `to_le_bytes` or `to_be_bytes`, and their
 * `write_length_prefix` calls their own `write_usize`, so unlike hash-t's
 * wrappers the length prefix follows the wrapper's order too.
 */
module AnyHash {
  import opened Bytes
  import opened Encoding
  import opened Writes
  import HashT

  /** `HasherLe<T, H>` (`order` is `Little`) or `HasherBe<T, H>` (`Big`) around the inner hasher. */
  class EndianHasher {
    const order: Order
    const inner: Recorder

    /** `HasherLe::new`. */
    constructor Le(inner: Recorder)
      ensures order == Little && this.inner == inner
    {
      order := Little;
      this.inner := inner;
    }

    /** `HasherBe::new`. */
    constructor Be(inner: Recorder)
      ensures order == Big && this.inner == inner
    {
      order := Big;
      this.inner := inner;
    }

    /** `write`: forwarded to the inner hasher. */
    method Write(bytes: seq<byte>)
      modifies inner
      ensures inner.stream == old(inner.stream) + bytes
    {
      inner.Write(bytes);
    }

    /** `write_u8(i)`: `self.write(&[i])`. */
    method WriteU8(i: byte)
      modifies inner
      ensures inner.stream == old(inner.stream) + [i]
    {
      Write([i]);
    }

    /** `write_i8(i)`: `self.write(&[i as u8])`. */
    method WriteI8(i: byte)
      modifies inner
      ensures inner.stream == old(inner.stream) + [i]
    {
      Write([i]);
    }

    /** `write_u16` .. `write_isize`: `self.write(&i.to_le_bytes())`, or `to_be_bytes` in `HasherBe`. */
    method WriteInt(x: Int)
      modifies inner
      ensures inner.stream == old(inner.stream) + ToBytes(x, order)
    {
      Write(ToBytes(x, order));
    }

    /** `write_length_prefix(len)`: the wrapper's own `write_usize(len)`. */
    method WriteLengthPrefix(len: bv64)
      modifies inner
      ensures inner.stream == old(inner.stream) + ToBytes(Usize(len), order)
    {
      WriteInt(Usize(len));
    }

    /** `write_str(s)`: `self.write` of the bytes, then `self.write_u8(0xff)`. */
    method WriteStr(s: seq<byte>)
      modifies inner
      ensures inner.stream == old(inner.stream) + StrBytes(s)
    {
      Write(s);
      WriteU8(0xff);
    }

    /** One call of any write method `HasherWrite` offers. */
    method Apply(c: Call)
      requires c.NativeOnly()
      modifies inner
      ensures inner.stream == old(inner.stream) + Fed(c, order)
    {
      match c
      case Write(bytes) => Write(bytes);
      case WriteU8(i) => WriteU8(i);
      case WriteI8(i) => WriteI8(i);
      case WriteInt(x, _) => WriteInt(x);
      case WriteLengthPrefix(len) => WriteLengthPrefix(len);
      case WriteStr(s) => WriteStr(s);
    }

    /** `x.hash(self)` for a value whose `Hash` impl makes the calls `calls`. */
    method HashValue(calls: seq<Call>)
      requires forall i :: 0 <= i < |calls| ==> calls[i].NativeOnly()
      modifies inner
      ensures inner.stream == old(inner.stream) + FedAll(calls, order)
    {
      for i := 0 to |calls|
        invariant inner.stream == old(inner.stream) + FedAll(calls[..i], order)
      {
        ghost var before := inner.stream;
        Apply(calls[i]);
        FedAllSingle(calls[i], order);
        FedAllStep(old(inner.stream), before, inner.stream, order, calls, i);
      }
      assert calls[..|calls|] == calls;
    }

    /** `finish`: the inner hasher's `finish`. */
    function Finish(): seq<byte>
      reads this, inner
    {
      inner.Finish()
    }
  }

  /** `BuildHasherDefault::build_hasher`: `H::default()`, a hasher with nothing written. */
  method BuildHasherDefault() returns (h: Recorder)
    ensures fresh(h) && h.stream == []
  {
    h := new Recorder();
  }

  /**
   * `hash_one` of a `BuildHasherLe` (`fixed` is `Little`) or `BuildHasherBe`
   * (`Big`): the inner builder's fresh hasher, wrapped, hashes the value once.
   */
  method HashOne(fixed: Order, calls: seq<Call>) returns (r: seq<byte>)
    requires fixed != Native
    requires forall i :: 0 <= i < |calls| ==> calls[i].NativeOnly()
    ensures r == FedAll(calls, fixed)
  {
    var inner := new Recorder();
    var h: EndianHasher;
    if fixed == Little {
      h := new EndianHasher.Le(inner);
    } else {
      h := new EndianHasher.Be(inner);
    }
    h.HashValue(calls);
    r := h.Finish();
  }

  /** The length prefix of a wrapper reads back, in the wrapper's order, as the length. */
  lemma LengthPrefixInOrder(fixed: Order, len: bv64)
    ensures Fed(WriteLengthPrefix(len), fixed) == ToBytes(Usize(len), fixed)
    ensures FromBytes(WSize, fixed, Fed(WriteLengthPrefix(len), fixed)) == Usize(len)
  {
    ToBytesFromBytes(Usize(len), fixed);
  }

  /**
   * On a little-endian host the `HasherLe` of anyhash and that of hash-t
   * feed the inner hasher the same bytes for every call.
   */
  lemma LeWrappersAgree(c: Call)
    requires c.NativeOnly()
    ensures Fed(c, Little) == Fed(HashT.Fix(Little, c), Native)
  {
    HashT.WrapperFeeds(Little, c);
  }

  /**
   * The `HasherBe` of anyhash and that of hash-t feed the same bytes for
   * every call but the length prefix, which anyhash writes big-endian and
   * hash-t little-endian: the bytes of one are those of the other reversed.
   */
  lemma BeWrappersDiffer(c: Call)
    requires c.NativeOnly()
    ensures !c.WriteLengthPrefix? ==> Fed(c, Big) == Fed(HashT.Fix(Big, c), Native)
    ensures c.WriteLengthPrefix? ==> Fed(c, Big) == Reverse(Fed(HashT.Fix(Big, c), Native))
  {
    HashT.WrapperFeeds(Big, c);
    if c.WriteLengthPrefix? {
      Orders(Usize(c.len));
    }
  }

  /** For a slice of one element the two crates' `HasherBe` length prefixes differ. */
  lemma BeLengthPrefixOfOne()
    ensures Fed(WriteLengthPrefix(1), Big) == [0, 0, 0, 0, 0, 0, 0, 1]
    ensures Fed(HashT.Fix(Big, WriteLengthPrefix(1)), Native) == [1, 0, 0, 0, 0, 0, 0, 0]
  {
  }
}

/**
 * The endian-fixing wrappers of hash-t's `Hasher<T>`: `HasherLe` and
 * `HasherBe` send every native-order integer write to the inner hasher in
 * their fixed order, and forward everything else. The length prefix is the
 * exception: the wrapper hands it to the inner hasher's own `write_usize`,
 * which encodes in the host's native order whatever the wrapper's order.
 */
module HashT {
  import opened Bytes
  import opened Encoding
  import opened Writes

  /**
   * The plain call that has the effect, on the inner hasher, of what a
   * wrapper of order `fixed` does for call `c`.
   */
  function Fix(fixed: Order, c: Call): (r: Call)
    ensures !r.WriteLengthPrefix?
    ensures r.WriteInt? && r.order == Native ==> c.WriteLengthPrefix? || fixed == Native
  {
    match c
    case WriteInt(x, Native) => WriteInt(x, fixed)
    case WriteLengthPrefix(len) => WriteInt(Usize(len), Native)
    case _ => c
  }

  /** The wrapper changes the order of a call's bytes, never their number. */
  lemma FixKeepsLength(fixed: Order, c: Call)
    ensures |Fed(Fix(fixed, c), Native)| == |Fed(c, Native)|
  {
  }

  /** The wrapper's version of each call of a sequence. */
  function FixAll(fixed: Order, cs: seq<Call>): (r: seq<Call>)
    ensures |r| == |cs|
    ensures forall i :: 0 <= i < |cs| ==> r[i] == Fix(fixed, cs[i])
  {
    if cs == [] then [] else FixAll(fixed, cs[..|cs| - 1]) + [Fix(fixed, cs[|cs| - 1])]
  }

  /**
   * A stream that holds the bytes of the wrapper's first `i` calls, then
   * those of call `i`, holds the bytes of the first `i + 1`.
   */
  lemma FixAllSnoc(s0: seq<byte>, s1: seq<byte>, s2: seq<byte>, fixed: Order, cs: seq<Call>, i: nat)
    requires i < |cs|
    requires s1 == s0 + FedAll(FixAll(fixed, cs[..i]), Native)
    requires s2 == s1 + FedAll([Fix(fixed, cs[i])], Native)
    ensures s2 == s0 + FedAll(FixAll(fixed, cs[..i + 1]), Native)
  {
    var fa := FixAll(fixed, cs[..i + 1]);
    assert cs[..i + 1][..i] == cs[..i];
    assert fa[..i] == FixAll(fixed, cs[..i]) && fa[i] == Fix(fixed, cs[i]);
    FedAllStep(s0, s1, s2, Native, fa, i);
    assert fa[..i + 1] == fa;
  }

  /**
   * A wrapper of order `fixed` feeds the inner hasher the bytes of a hasher
   * whose native methods encode in `fixed`, except for the length prefix,
   * which keeps the native (little-endian) order.
   */
  lemma WrapperFeeds(fixed: Order, c: Call)
    ensures !c.WriteLengthPrefix? ==> Fed(Fix(fixed, c), Native) == Fed(c, fixed)
    ensures c.WriteLengthPrefix? ==> Fed(Fix(fixed, c), Native) == ToBytes(Usize(c.len), Little)
  {
    match c
    case WriteLengthPrefix(len) => Orders(Usize(len));
    case _ =>
  }

  /** On a little-endian host `HasherLe` feeds exactly what the bare hasher would. */
  lemma LeWrapperTransparent(c: Call)
    ensures Fed(Fix(Little, c), Native) == Fed(c, Native)
  {
    WrapperFeeds(Little, c);
    NativeIsLittle(c);
  }

  /**
   * `HasherBe` writes a native-order `usize` big-endian, but the same number
   * as a length prefix little-endian.
   */
  lemma BeLengthPrefixIsLittle(len: bv64)
    ensures Fed(Fix(Big, WriteInt(Usize(len), Native)), Native) == ToBytes(Usize(len), Big)
    ensures Fed(Fix(Big, WriteLengthPrefix(len)), Native) == ToBytes(Usize(len), Little)
  {
    WrapperFeeds(Big, WriteLengthPrefix(len));
  }

  /** `HasherLe<T, U>` (`order` is `Little`) or `HasherBe<T, U>` (`Big`) around the inner hasher. */
  class EndianHasher {
    const order: Order
    const inner: Recorder

    /** `HasherLe::new`. */
    constructor Le(inner: Recorder)
      ensures order == Little && this.inner == inner
    {
      order := Little;
      this.inner := inner;
    }

    /** `HasherBe::new`. */
    constructor Be(inner: Recorder)
      ensures order == Big && this.inner == inner
    {
      order := Big;
      this.inner := inner;
    }

    /** `write`: forwarded to the inner hasher. */
    method Write(bytes: seq<byte>)
      modifies inner
      ensures inner.stream == old(inner.stream) + bytes
    {
      inner.Write(bytes);
    }

    /** `write_u8(i)`: the inner hasher's `write(&[i])`. */
    method WriteU8(i: byte)
      modifies inner
      ensures inner.stream == old(inner.stream) + [i]
    {
      inner.Write([i]);
    }

    /** `write_i8(i)`: the inner hasher's `write(&[i as u8])`. */
    method WriteI8(i: byte)
      modifies inner
      ensures inner.stream == old(inner.stream) + [i]
    {
      inner.Write([i]);
    }

    /**
     * The integer writes: a native one is redirected to the wrapper's order
     * (`write_u16` -> `write_u16_le` in `HasherLe`), an explicit `_le` or
     * `_be` keeps its order; each writes the bytes with `self.write`.
     */
    method WriteInt(x: Int, o: Order)
      modifies inner
      ensures inner.stream == old(inner.stream) + ToBytes(x, if o == Native then order else o)
    {
      Write(ToBytes(x, if o == Native then order else o));
    }

    /** `write_length_prefix(len)`: the inner hasher's native `write_usize(len)`. */
    method WriteLengthPrefix(len: bv64)
      modifies inner
      ensures inner.stream == old(inner.stream) + ToBytes(Usize(len), Native)
    {
      inner.WriteInt(Usize(len), Native);
    }

    /** `write_str(s)`: the inner hasher's `write` of the bytes, then its `write_u8(0xff)`. */
    method WriteStr(s: seq<byte>)
      modifies inner
      ensures inner.stream == old(inner.stream) + StrBytes(s)
    {
      inner.Write(s);
      inner.WriteU8(0xff);
    }

    /** One call of any write method: the inner hasher sees the call `Fix(order, c)`. */
    method Apply(c: Call)
      modifies inner
      ensures inner.stream == old(inner.stream) + Fed(Fix(order, c), Native)
    {
      match c
      case Write(bytes) => Write(bytes);
      case WriteU8(i) => WriteU8(i);
      case WriteI8(i) => WriteI8(i);
      case WriteInt(x, o) => WriteInt(x, o);
      case WriteLengthPrefix(len) => WriteLengthPrefix(len);
      case WriteStr(s) => WriteStr(s);
    }

    /** `x.hash(self)` for a value whose `Hash` impl makes the calls `calls`. */
    method HashValue(calls: seq<Call>)
      modifies inner
      ensures inner.stream == old(inner.stream) + FedAll(FixAll(order, calls), Native)
    {
      for i := 0 to |calls|
        invariant inner.stream == old(inner.stream) + FedAll(FixAll(order, calls[..i]), Native)
      {
        ghost var before := inner.stream;
        Apply(calls[i]);
        FedAllSingle(Fix(order, calls[i]), Native);
        FixAllSnoc(old(inner.stream), before, inner.stream, order, calls, i);
      }
      assert calls[..|calls|] == calls;
    }

    /** `finish`: the inner hasher's `finish`. */
    function Finish(): seq<byte>
      reads this, inner
    {
      inner.Finish()
    }
  }

  /**
   * `hash_one` of a `BuildHasherLe` (`fixed` is `Little`) or `BuildHasherBe`
   * (`Big`): the inner builder's fresh hasher, wrapped, hashes the value once.
   */
  method HashOne(fixed: Order, calls: seq<Call>) returns (r: seq<byte>)
    requires fixed != Native
    ensures r == FedAll(FixAll(fixed, calls), Native)
  {
    var inner := new Recorder();
    var h: EndianHasher;
    if fixed == Little {
      h := new EndianHasher.Le(inner);
    } else {
      h := new EndianHasher.Be(inner);
    }
    h.HashValue(calls);
    r := h.Finish();
  }
}

/**
 * The byte codec that every packet body is built from: fixed-width unsigned
 * integers (little-endian, the one byte order used for every field), booleans
 * as one byte, length-prefixed byte strings with a bound, and count prefixes
 * with a bound. Each encoder has a decoder that either yields the value and
 * the bytes after it, or reports the input as malformed.
 */
module Wire {

  type uint8 = x: int | 0 <= x < 0x100
  type uint16 = x: int | 0 <= x < 0x1_0000
  type uint32 = x: int | 0 <= x < 0x1_0000_0000
  type uint64 = x: int | 0 <= x < 0x1_0000_0000_0000_0000

  /** Bytes on the wire. Strings travel as raw bytes, with no charset conversion. */
  type Bytes = seq<uint8>

  /** A length or count bound; the widest length prefix is four bytes. */
  type Bound = n: nat | n <= 0xffff_ffff

  /** Outcome of reading one value: the value and the unread bytes, or a malformed input. */
  datatype Decoded<+T> = Done(value: T, rest: Bytes) | Malformed
  {
    predicate IsFailure() { Malformed? }

    function PropagateFailure<U>(): Decoded<U>
      requires Malformed?
    {
      Malformed
    }

    function Extract(): (T, Bytes)
      requires Done?
    {
      (value, rest)
    }
  }

  /**
   * One read in a chain of reads: when the reader was healthy (`wasOk`) and
   * `d` succeeds, the reader stays healthy, `x` is the value read and `rest`
   * the bytes after it; otherwise the reader has failed.
   */
  ghost predicate ReadStep<T>(wasOk: bool, d: Decoded<T>, ok: bool, x: T, rest: Bytes) {
    if wasOk && d.Done? then ok && x == d.value && rest == d.rest else !ok
  }

  function Pow256(width: nat): (p: nat)
    ensures p >= 1
  {
    if width == 0 then 1 else 256 * Pow256(width - 1)
  }

  // ----- Fixed-width unsigned integers -----

  /** The `width` bytes of `v`, least significant first. */
  function EncodeUInt(v: nat, width: nat): (r: Bytes)
    requires v < Pow256(width)
    ensures |r| == width
    ensures width > 0 ==> r[0] == v % 256
  {
    if width == 0 then [] else [v % 256] + EncodeUInt(v / 256, width - 1)
  }

  /** The number whose little-endian bytes are `s`. */
  function DecodeUInt(s: Bytes): (v: nat)
    ensures v < Pow256(|s|)
  {
    if s == [] then 0 else s[0] + 256 * DecodeUInt(s[1..])
  }

  lemma {:induction false} DecodeEncodeUInt(v: nat, width: nat)
    requires v < Pow256(width)
    ensures DecodeUInt(EncodeUInt(v, width)) == v
  {
    if width > 0 {
      var e := EncodeUInt(v, width);
      assert e[1..] == EncodeUInt(v / 256, width - 1);
      DecodeEncodeUInt(v / 256, width - 1);
    }
  }

  lemma {:induction false} EncodeDecodeUInt(s: Bytes)
    ensures EncodeUInt(DecodeUInt(s), |s|) == s
  {
    if s != [] {
      EncodeDecodeUInt(s[1..]);
      var v := DecodeUInt(s);
      assert v % 256 == s[0];
      assert v / 256 == DecodeUInt(s[1..]);
    }
  }

  /** Reads a `width`-byte integer; fails only when fewer than `width` bytes remain. */
  function ReadUInt(b: Bytes, width: nat): (d: Decoded<nat>)
    ensures d.Malformed? <==> |b| < width
    ensures d.Done? ==> d.value < Pow256(width) && b == EncodeUInt(d.value, width) + d.rest
  {
    if |b| < width then Malformed
    else
      EncodeDecodeUInt(b[..width]);
      assert b == b[..width] + b[width..];
      Done(DecodeUInt(b[..width]), b[width..])
  }

  lemma ReadEncodedUInt(v: nat, width: nat, rest: Bytes)
    requires v < Pow256(width)
    ensures ReadUInt(EncodeUInt(v, width) + rest, width) == Done(v, rest)
  {
    var b := EncodeUInt(v, width) + rest;
    assert b[..width] == EncodeUInt(v, width);
    assert b[width..] == rest;
    DecodeEncodeUInt(v, width);
  }

  lemma OneByte(v: uint8)
    ensures EncodeUInt(v, 1) == [v]
  {
    assert EncodeUInt(v / 256, 0) == [];
  }

  lemma SeqAssoc3(a: Bytes, b: Bytes, c: Bytes)
    ensures a + b + c == a + (b + c)
  {
  }

  /** Five appends one after another append the five pieces joined. */
  lemma AppendFive(d0: Bytes, d1: Bytes, d2: Bytes, d3: Bytes, d4: Bytes, d5: Bytes,
                   e1: Bytes, e2: Bytes, e3: Bytes, e4: Bytes, e5: Bytes)
    requires d1 == d0 + e1 && d2 == d1 + e2 && d3 == d2 + e3 && d4 == d3 + e4 && d5 == d4 + e5
    ensures d5 == d0 + (e1 + e2 + e3 + e4 + e5)
  {
    SeqAssoc3(d0, e1, e2);
    SeqAssoc3(d0, e1 + e2, e3);
    SeqAssoc3(d0, e1 + e2 + e3, e4);
    SeqAssoc3(d0, e1 + e2 + e3 + e4, e5);
  }

  /** Five pieces read off the front one after another are the five pieces joined. */
  lemma PeelFive(b0: Bytes, b1: Bytes, b2: Bytes, b3: Bytes, b4: Bytes, b5: Bytes,
                 e1: Bytes, e2: Bytes, e3: Bytes, e4: Bytes, e5: Bytes)
    requires b0 == e1 + b1 && b1 == e2 + b2 && b2 == e3 + b3 && b3 == e4 + b4 && b4 == e5 + b5
    ensures b0 == e1 + e2 + e3 + e4 + e5 + b5
  {
    SeqAssoc3(e4, e5, b5);
    SeqAssoc3(e3, e4 + e5, b5);
    SeqAssoc3(e2, e3 + e4 + e5, b5);
    SeqAssoc3(e1, e2 + e3 + e4 + e5, b5);
    SeqAssoc4(e1, e2, e3, e4, e5);
    assert e1 + e2 + e3 + e4 + e5 == e1 + (e2 + (e3 + (e4 + e5)));
  }

  /** Four pieces read off the front one after another are the four pieces joined. */
  lemma PeelFour(b0: Bytes, b1: Bytes, b2: Bytes, b3: Bytes, b4: Bytes,
                 e1: Bytes, e2: Bytes, e3: Bytes, e4: Bytes)
    requires b0 == e1 + b1 && b1 == e2 + b2 && b2 == e3 + b3 && b3 == e4 + b4
    ensures b0 == e1 + e2 + e3 + e4 + b4
  {
    SeqAssoc3(e3, e4, b4);
    SeqAssoc3(e2, e3 + e4, b4);
    SeqAssoc3(e1, e2 + e3 + e4, b4);
    assert e1 + e2 + e3 + e4 == e1 + (e2 + (e3 + e4));
  }

  lemma SeqAssoc4(a: Bytes, b: Bytes, c: Bytes, d: Bytes, e: Bytes)
    ensures a + b + c + d + e == a + (b + c + d + e)
  {
  }

  // ----- Booleans -----

  function EncodeBool(x: bool): (r: Bytes)
    ensures |r| == 1
  {
    [if x then 1 else 0]
  }

  /** Reads one byte; any non-zero byte reads as true. */
  function DecodeBool(b: Bytes): (d: Decoded<bool>)
    ensures d.Malformed? <==> b == []
    ensures d.Done? ==> d.value == (b[0] != 0) && d.rest == b[1..]
    ensures d.Done? && b[0] <= 1 ==> b == EncodeBool(d.value) + d.rest
  {
    if b == [] then Malformed else Done(b[0] != 0, b[1..])
  }

  /** Reading back a written boolean gives the boolean and leaves what follows. */
  lemma BoolRoundTrip(x: bool, rest: Bytes)
    ensures DecodeBool(EncodeBool(x) + rest) == Done(x, rest)
  {
    assert (EncodeBool(x) + rest)[1..] == rest;
  }

  // ----- Length and count prefixes -----

  /**
   * Width in bytes of the prefix for values up to `bound`: the smallest of
   * the 1-, 2- and 4-byte unsigned types that holds `bound`.
   */
  function PrefixWidth(bound: Bound): (w: nat)
    ensures w == 1 || w == 2 || w == 4
    ensures bound < Pow256(w)
    ensures w > 1 ==> Pow256(w / 2) <= bound
  {
    if bound <= 0xff then 1 else if bound <= 0xffff then 2 else 4
  }

  /** The length prefix followed by the bytes of `s`. */
  function EncodeString(s: Bytes, maxLength: Bound): (r: Bytes)
    requires |s| <= maxLength
    ensures |r| == PrefixWidth(maxLength) + |s|
    ensures r[PrefixWidth(maxLength)..] == s
  {
    EncodeUInt(|s|, PrefixWidth(maxLength)) + s
  }

  /**
   * Reads a length-prefixed string. It is malformed when the prefix is cut
   * short, when the declared length is over `maxLength`, or when it is over
   * the number of bytes that follow the prefix.
   */
  function DecodeString(b: Bytes, maxLength: Bound): (d: Decoded<Bytes>)
    ensures var w := PrefixWidth(maxLength);
            d.Malformed? <==> |b| < w || DecodeUInt(b[..w]) > maxLength || DecodeUInt(b[..w]) > |b| - w
    ensures d.Done? ==> |d.value| <= maxLength && b == EncodeString(d.value, maxLength) + d.rest
  {
    var n :- ReadUInt(b, PrefixWidth(maxLength));
    if n.0 > maxLength || n.0 > |n.1| then Malformed
    else
      assert n.1 == n.1[..n.0] + n.1[n.0..];
      Done(n.1[..n.0], n.1[n.0..])
  }

  lemma StringRoundTrip(s: Bytes, maxLength: Bound, rest: Bytes)
    requires |s| <= maxLength
    ensures DecodeString(EncodeString(s, maxLength) + rest, maxLength) == Done(s, rest)
  {
    var w := PrefixWidth(maxLength);
    assert EncodeString(s, maxLength) + rest == EncodeUInt(|s|, w) + (s + rest);
    ReadEncodedUInt(|s|, w, s + rest);
    assert (s + rest)[..|s|] == s;
    assert (s + rest)[|s|..] == rest;
  }

  /** The element count of an array, as its prefix. */
  function EncodeArraySize(count: nat, maxCount: Bound): (r: Bytes)
    requires count <= maxCount
    ensures |r| == PrefixWidth(maxCount)
  {
    EncodeUInt(count, PrefixWidth(maxCount))
  }

  /** Reads an element count; malformed when cut short or over `maxCount`. */
  function DecodeArraySize(b: Bytes, maxCount: Bound): (d: Decoded<nat>)
    ensures var w := PrefixWidth(maxCount);
            d.Malformed? <==> |b| < w || DecodeUInt(b[..w]) > maxCount
    ensures d.Done? ==> d.value <= maxCount && b == EncodeArraySize(d.value, maxCount) + d.rest
  {
    var n :- ReadUInt(b, PrefixWidth(maxCount));
    if n.0 > maxCount then Malformed else Done(n.0, n.1)
  }

  lemma ArraySizeRoundTrip(count: nat, maxCount: Bound, rest: Bytes)
    requires count <= maxCount
    ensures DecodeArraySize(EncodeArraySize(count, maxCount) + rest, maxCount) == Done(count, rest)
  {
    ReadEncodedUInt(count, PrefixWidth(maxCount), rest);
  }

  /** With a bound of 0xff the prefix is the single byte `b[0]`. */
  lemma SingleBytePrefix(b: Bytes)
    requires |b| >= 1
    ensures PrefixWidth(0xff) == 1 && DecodeUInt(b[..1]) == b[0]
  {
    assert b[..1][1..] == [];
  }

  /**
   * Under a bound of 0xff every declared length fits the bound, so a string
   * is rejected only when it is cut short, and a count never is.
   */
  lemma ByteBoundOnlyRejectsTruncation(b: Bytes)
    ensures DecodeString(b, 0xff).Malformed? <==> b == [] || b[0] > |b| - 1
    ensures DecodeArraySize(b, 0xff).Malformed? <==> b == []
  {
    if b != [] {
      SingleBytePrefix(b);
    }
  }
}

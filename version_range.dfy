/**
 * A supported-version interval (min, max) over one-byte versions, as the
 * feature list carries it: two consecutive one-byte values. The interval is
 * treated as an opaque pair; nothing here checks min <= max.
 */
module VersionRanges {
  import opened Wire
  import opened Serialization

  datatype VersionRange = VersionRange(min: uint8, max: uint8)
  {
    /** Writes or reads (min, max) through `s`, in that order. */
    method Serialize(s: VectorBinarySerializer) returns (r: VersionRange)
      requires s.Valid()
      modifies s
      ensures s.Valid()
      ensures !s.reading ==> s.data == old(s.data) + EncodeVersionRange(this) && r == this
      ensures s.reading ==> s.ReadInto(old(s.ok), DecodeVersionRange(old(s.Remaining())), r) && s.data == old(s.data)
    {
      var lo := s.SerializeUInt(min, 1);
      var hi := s.SerializeUInt(max, 1);
      r := VersionRange(lo, hi);
    }
  }

  function EncodeVersionRange(v: VersionRange): (r: Bytes)
    ensures r == [v.min, v.max]
  {
    OneByte(v.min);
    OneByte(v.max);
    EncodeUInt(v.min, 1) + EncodeUInt(v.max, 1)
  }

  function DecodeVersionRange(b: Bytes): (d: Decoded<VersionRange>)
    ensures d.Malformed? <==> |b| < 2
    ensures d.Done? ==> b == EncodeVersionRange(d.value) + d.rest
  {
    var lo :- ReadUInt(b, 1);
    var hi :- ReadUInt(lo.1, 1);
    Done(VersionRange(lo.0, hi.0), hi.1)
  }

  lemma VersionRangeRoundTrip(v: VersionRange, rest: Bytes)
    ensures DecodeVersionRange(EncodeVersionRange(v) + rest) == Done(v, rest)
  {
    assert EncodeVersionRange(v) + rest == EncodeUInt(v.min, 1) + (EncodeUInt(v.max, 1) + rest);
    ReadEncodedUInt(v.min, 1, EncodeUInt(v.max, 1) + rest);
    ReadEncodedUInt(v.max, 1, rest);
  }
}

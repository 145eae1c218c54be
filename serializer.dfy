/**
 * A cursor-based serializer over a byte buffer. One object serves either
 * writing or reading, fixed by `reading` at construction, so that a packet's
 * body describes its fields once and runs in both directions: in write mode
 * each call appends the field's encoding and hands the field back unchanged;
 * in read mode it reads the field at the cursor and hands back what it read.
 * A failed read clears `ok`, and every later read fails too; a packet read
 * with `ok` cleared is discarded by its caller.
 */
module Serialization {
  import opened Wire

  class VectorBinarySerializer {
    const reading: bool
    var data: Bytes
    var pos: nat
    var ok: bool

    ghost predicate Valid()
      reads this
    {
      pos <= |data| && (!reading ==> ok && pos == 0)
    }

    /** The bytes not yet read. */
    function Remaining(): Bytes
      reads this
      requires Valid()
    {
      data[pos..]
    }

    /**
     * After a read: when the serializer was healthy and `d` decodes the bytes
     * that were unread, the serializer stays healthy, `after` is the decoded
     * value and the cursor sits after it; otherwise the serializer has failed.
     */
    ghost predicate ReadInto<T>(wasOk: bool, d: Decoded<T>, after: T)
      reads this
      requires Valid()
    {
      ReadStep(wasOk, d, ok, after, Remaining())
    }

    constructor ForReading(bytes: Bytes)
      ensures Valid() && reading && ok && Remaining() == bytes
    {
      reading := true;
      data := bytes;
      pos := 0;
      ok := true;
    }

    constructor ForWriting()
      ensures Valid() && !reading && data == []
    {
      reading := false;
      data := [];
      pos := 0;
      ok := true;
    }

    /** Moves the cursor to the start of `rest`, a suffix of the unread bytes. */
    method SkipTo(ghost prefix: Bytes, rest: Bytes)
      requires Valid() && reading && Remaining() == prefix + rest
      modifies this`pos
      ensures Valid() && Remaining() == rest
    {
      assert data[pos..][|prefix|..] == rest;
      pos := pos + (|data| - pos - |rest|);
    }

    /** A `width`-byte unsigned integer. */
    method SerializeUInt(value: nat, width: nat) returns (r: nat)
      requires Valid() && value < Pow256(width)
      modifies this
      ensures Valid() && r < Pow256(width)
      ensures !reading ==> data == old(data) + EncodeUInt(value, width) && r == value
      ensures reading ==> ReadInto(old(ok), ReadUInt(old(Remaining()), width), r) && data == old(data)
    {
      if !reading {
        data := data + EncodeUInt(value, width);
        r := value;
      } else {
        var d := ReadUInt(data[pos..], width);
        if ok && d.Done? {
          r := d.value;
          SkipTo(EncodeUInt(d.value, width), d.rest);
        } else {
          ok := false;
          r := value;
        }
      }
    }

    /** A boolean as one byte. */
    method SerializeBool(value: bool) returns (r: bool)
      requires Valid()
      modifies this
      ensures Valid()
      ensures !reading ==> data == old(data) + EncodeBool(value) && r == value
      ensures reading ==> ReadInto(old(ok), DecodeBool(old(Remaining())), r) && data == old(data)
    {
      if !reading {
        data := data + EncodeBool(value);
        r := value;
      } else {
        var d := DecodeBool(data[pos..]);
        if ok && d.Done? {
          r := d.value;
          SkipTo(data[pos..][..1], d.rest);
        } else {
          ok := false;
          r := value;
        }
      }
    }

    /** A byte string of at most `maxLength` bytes, after its length prefix. */
    method SerializeString(value: Bytes, maxLength: Bound) returns (r: Bytes)
      requires Valid() && (!reading ==> |value| <= maxLength)
      modifies this
      ensures Valid()
      ensures !reading ==> data == old(data) + EncodeString(value, maxLength) && r == value
      ensures reading ==> ReadInto(old(ok), DecodeString(old(Remaining()), maxLength), r) && data == old(data)
    {
      if !reading {
        data := data + EncodeString(value, maxLength);
        r := value;
      } else {
        var d := DecodeString(data[pos..], maxLength);
        if ok && d.Done? {
          r := d.value;
          SkipTo(EncodeString(d.value, maxLength), d.rest);
        } else {
          ok := false;
          r := value;
        }
      }
    }

    /**
     * The element count of an array of at most `maxCount` elements. The
     * caller resizes its container to the count it gets back and then
     * serializes each element.
     */
    method SerializeArraySize(count: nat, maxCount: Bound) returns (r: nat)
      requires Valid() && (!reading ==> count <= maxCount)
      modifies this
      ensures Valid()
      ensures !reading ==> data == old(data) + EncodeArraySize(count, maxCount) && r == count
      ensures reading ==> ReadInto(old(ok), DecodeArraySize(old(Remaining()), maxCount), r) && data == old(data)
    {
      if !reading {
        data := data + EncodeArraySize(count, maxCount);
        r := count;
      } else {
        var d := DecodeArraySize(data[pos..], maxCount);
        if ok && d.Done? {
          r := d.value;
          SkipTo(EncodeArraySize(d.value, maxCount), d.rest);
        } else {
          ok := false;
          r := count;
        }
      }
    }
  }
}

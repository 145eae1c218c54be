/**
 * The connectionless (low-level) packets of the address-discovery exchange:
 * a query carrying a packet version and a query id, and a reply that echoes
 * both and adds the sender's external IP (at most 64 bytes) and port. Each
 * packet type is identified on the wire by a fixed 16-bit signature.
 */
module ConnectionlessPackets {
  import opened Wire
  import opened Serialization

  const MAX_IP_LENGTH: Bound := 64

  datatype AddressQuery = AddressQuery(packetVersion: uint8, queryID: uint64)
  {
    /** Writes or reads the packet version, then the query id. */
    method Serialize(s: VectorBinarySerializer) returns (r: AddressQuery)
      requires s.Valid()
      modifies s
      ensures s.Valid()
      ensures !s.reading ==> s.data == old(s.data) + EncodeAddressQuery(this) && r == this
      ensures s.reading ==> s.ReadInto(old(s.ok), DecodeAddressQuery(old(s.Remaining())), r) && s.data == old(s.data)
    {
      var v := s.SerializeUInt(packetVersion, 1);
      var id := s.SerializeUInt(queryID, 8);
      r := AddressQuery(v, id);
    }
  }

  datatype AddressReply = AddressReply(packetVersion: uint8, queryID: uint64, ip: Bytes, port: uint16)
  {
    /**
     * Writes or reads the packet version, the query id, the IP and the port.
     * Writing needs the IP within 64 bytes.
     */
    method Serialize(s: VectorBinarySerializer) returns (r: AddressReply)
      requires s.Valid() && (!s.reading ==> WellFormedReply(this))
      modifies s
      ensures s.Valid()
      ensures !s.reading ==> s.data == old(s.data) + EncodeAddressReply(this) && r == this
      ensures s.reading ==> s.ReadInto(old(s.ok), DecodeAddressReply(old(s.Remaining())), r) && s.data == old(s.data)
    {
      ghost var d0, b0, ok0 := s.data, s.Remaining(), s.ok;
      var v := s.SerializeUInt(packetVersion, 1);
      ghost var d1, b1, ok1 := s.data, s.Remaining(), s.ok;
      var id := s.SerializeUInt(queryID, 8);
      ghost var d2, b2, ok2 := s.data, s.Remaining(), s.ok;
      var address := s.SerializeString(ip, MAX_IP_LENGTH);
      ghost var d3, b3, ok3 := s.data, s.Remaining(), s.ok;
      var p := s.SerializeUInt(port, 2);
      r := AddressReply(v, id, address, p);
      if !s.reading {
        ReplyWritten(d0, d1, d2, d3, s.data, this);
      } else {
        ReplyRead(b0, ok0, v, ok1, b1, id, ok2, b2, address, ok3, b3, p, s.ok, s.Remaining());
      }
    }
  }

  /** The closed family of connectionless packets, each with its signature. */
  datatype ConnectionlessPacket =
    | GetExternalAddress(query: AddressQuery)
    | ReplyExternalAddress(reply: AddressReply)
  {
    /** The signature tells the two packet types apart, in both directions. */
    function Signature(): (sig: uint16)
      ensures GetExternalAddress? <==> sig == 0x3bcf
      ensures ReplyExternalAddress? <==> sig == 0xf151
    {
      match this
      case GetExternalAddress(_) => GetExternalAddressConnectionless.SIGNATURE
      case ReplyExternalAddress(_) => ReplyExternalAddressConnectionless.SIGNATURE
    }
  }

  // ----- GetExternalAddressConnectionless -----

  /** Packet version (1 byte), then query id (8 bytes). */
  function EncodeAddressQuery(q: AddressQuery): (r: Bytes)
    ensures |r| == 9
  {
    EncodeUInt(q.packetVersion, 1) + EncodeUInt(q.queryID, 8)
  }

  function DecodeAddressQuery(b: Bytes): (d: Decoded<AddressQuery>)
    ensures d.Malformed? <==> |b| < 9
    ensures d.Done? ==> b == EncodeAddressQuery(d.value) + d.rest
  {
    var version :- ReadUInt(b, 1);
    var id :- ReadUInt(version.1, 8);
    Done(AddressQuery(version.0, id.0), id.1)
  }

  lemma AddressQueryRoundTrip(q: AddressQuery, rest: Bytes)
    ensures DecodeAddressQuery(EncodeAddressQuery(q) + rest) == Done(q, rest)
  {
    assert EncodeAddressQuery(q) + rest == EncodeUInt(q.packetVersion, 1) + (EncodeUInt(q.queryID, 8) + rest);
    ReadEncodedUInt(q.packetVersion, 1, EncodeUInt(q.queryID, 8) + rest);
    ReadEncodedUInt(q.queryID, 8, rest);
  }

  // ----- ReplyExternalAddressConnectionless -----

  predicate WellFormedReply(r: AddressReply) {
    |r.ip| <= MAX_IP_LENGTH
  }

  /** Packet version, query id, the IP as a string of at most 64 bytes, then the port. */
  function EncodeAddressReply(r: AddressReply): (e: Bytes)
    requires WellFormedReply(r)
    ensures |e| == 12 + |r.ip|
  {
    EncodeUInt(r.packetVersion, 1) + EncodeUInt(r.queryID, 8)
      + EncodeString(r.ip, MAX_IP_LENGTH) + EncodeUInt(r.port, 2)
  }

  function DecodeAddressReply(b: Bytes): (d: Decoded<AddressReply>)
    ensures d.Done? ==> WellFormedReply(d.value) && b == EncodeAddressReply(d.value) + d.rest
  {
    var version :- ReadUInt(b, 1);
    var id :- ReadUInt(version.1, 8);
    var ip :- DecodeString(id.1, MAX_IP_LENGTH);
    var port :- ReadUInt(ip.1, 2);
    PeelFour(b, version.1, id.1, ip.1, port.1, EncodeUInt(version.0, 1), EncodeUInt(id.0, 8),
             EncodeString(ip.0, MAX_IP_LENGTH), EncodeUInt(port.0, 2));
    Done(AddressReply(version.0, id.0, ip.0, port.0), port.1)
  }

  lemma AddressReplyRoundTrip(r: AddressReply, rest: Bytes)
    requires WellFormedReply(r)
    ensures DecodeAddressReply(EncodeAddressReply(r) + rest) == Done(r, rest)
  {
    var tail := EncodeUInt(r.port, 2) + rest;
    var afterId := EncodeString(r.ip, MAX_IP_LENGTH) + tail;
    var afterVersion := EncodeUInt(r.queryID, 8) + afterId;
    PeelFour(EncodeUInt(r.packetVersion, 1) + afterVersion, afterVersion, afterId, tail, rest,
             EncodeUInt(r.packetVersion, 1), EncodeUInt(r.queryID, 8), EncodeString(r.ip, MAX_IP_LENGTH),
             EncodeUInt(r.port, 2));
    ReadEncodedUInt(r.packetVersion, 1, afterVersion);
    ReadEncodedUInt(r.queryID, 8, afterId);
    StringRoundTrip(r.ip, MAX_IP_LENGTH, tail);
    ReadEncodedUInt(r.port, 2, rest);
  }

  /** A reply whose IP length byte declares more than 64 bytes is rejected. */
  lemma {:induction false} OverlongReplyIpRejected(b: Bytes)
    requires |b| >= 10 && b[9] > MAX_IP_LENGTH
    ensures DecodeAddressReply(b).Malformed?
  {
    var afterId := b[9..];
    assert ReadUInt(b, 1).rest == b[1..];
    assert ReadUInt(b[1..], 8).rest == afterId;
    SingleBytePrefix(afterId);
    assert DecodeString(afterId, MAX_IP_LENGTH).Malformed?;
  }

  /** The four field writes of the reply append exactly its encoding. */
  lemma ReplyWritten(d0: Bytes, d1: Bytes, d2: Bytes, d3: Bytes, d4: Bytes, r: AddressReply)
    requires WellFormedReply(r)
    requires d1 == d0 + EncodeUInt(r.packetVersion, 1) && d2 == d1 + EncodeUInt(r.queryID, 8)
    requires d3 == d2 + EncodeString(r.ip, MAX_IP_LENGTH) && d4 == d3 + EncodeUInt(r.port, 2)
    ensures d4 == d0 + EncodeAddressReply(r)
  {
    var e1, e2 := EncodeUInt(r.packetVersion, 1), EncodeUInt(r.queryID, 8);
    var e3, e4 := EncodeString(r.ip, MAX_IP_LENGTH), EncodeUInt(r.port, 2);
    assert EncodeAddressReply(r) == e1 + e2 + e3 + e4;
    calc {
      d4;
      ((d0 + e1) + e2) + e3 + e4;
      { SeqAssoc4(d0, e1, e2, e3, e4); }
      d0 + (e1 + e2 + e3 + e4);
    }
  }

  /** The four field reads of the reply read it as a whole, or fail where it does. */
  lemma ReplyRead(b0: Bytes, ok0: bool, v: uint8, ok1: bool, b1: Bytes, id: uint64, ok2: bool, b2: Bytes,
                  ip: Bytes, ok3: bool, b3: Bytes, p: uint16, ok4: bool, b4: Bytes)
    requires ReadStep(ok0, ReadUInt(b0, 1), ok1, v, b1) && ReadStep(ok1, ReadUInt(b1, 8), ok2, id, b2)
    requires ReadStep(ok2, DecodeString(b2, MAX_IP_LENGTH), ok3, ip, b3) && ReadStep(ok3, ReadUInt(b3, 2), ok4, p, b4)
    ensures ReadStep(ok0, DecodeAddressReply(b0), ok4, AddressReply(v, id, ip, p), b4)
  {
  }

  // ----- The packet objects -----

  class GetExternalAddressConnectionless {
    static const SIGNATURE: uint16 := 0x3bcf

    var packetVersion: uint8
    var queryID: uint64

    constructor ()
      ensures packetVersion == 1 && queryID == 0
    {
      packetVersion := 1;
      queryID := 0;
    }

    function Value(): AddressQuery
      reads this
    {
      AddressQuery(packetVersion, queryID)
    }

    /**
     * Writes the packet's fields to `s`, or reads them from `s` into this
     * packet. The protocol version is not consulted.
     */
    method SerializeContent(s: VectorBinarySerializer, protocolVersion: uint8)
      requires s.Valid()
      modifies this, s
      ensures s.Valid()
      ensures !s.reading ==> s.data == old(s.data) + EncodeAddressQuery(old(Value())) && Value() == old(Value())
      ensures s.reading ==> s.ReadInto(old(s.ok), DecodeAddressQuery(old(s.Remaining())), Value()) && s.data == old(s.data)
    {
      var q := Value().Serialize(s);
      packetVersion, queryID := q.packetVersion, q.queryID;
    }
  }

  class ReplyExternalAddressConnectionless {
    static const SIGNATURE: uint16 := 0xf151

    var packetVersion: uint8
    var queryID: uint64
    var ip: Bytes
    var port: uint16

    constructor ()
      ensures packetVersion == 1 && queryID == 0 && ip == [] && port == 0
    {
      packetVersion := 1;
      queryID := 0;
      ip := [];
      port := 0;
    }

    function Value(): AddressReply
      reads this
    {
      AddressReply(packetVersion, queryID, ip, port)
    }

    /**
     * Writes the reply's fields to `s`, or reads them from `s` into this
     * packet. Writing needs the IP within 64 bytes.
     */
    method SerializeContent(s: VectorBinarySerializer, protocolVersion: uint8)
      requires s.Valid() && (!s.reading ==> WellFormedReply(Value()))
      modifies this, s
      ensures s.Valid()
      ensures !s.reading ==> s.data == old(s.data) + EncodeAddressReply(old(Value())) && Value() == old(Value())
      ensures s.reading ==> s.ReadInto(old(s.ok), DecodeAddressReply(old(s.Remaining())), Value()) && s.data == old(s.data)
    {
      var r := Value().Serialize(s);
      packetVersion, queryID, ip, port := r.packetVersion, r.queryID, r.ip, r.port;
    }
  }
}

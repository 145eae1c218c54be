/**
 * The session-level address request: the query carries nothing, and the
 * response carries the requester's external IP (at most 64 bytes) and port.
 */
module GetExternalAddressRequest {
  import opened Wire
  import opened Serialization

  const MAX_IP_LENGTH: Bound := 64

  datatype Response = Response(ip: Bytes, port: uint16)
  {
    /** Writes or reads the IP, then the port. Writing needs the IP within 64 bytes. */
    method Serialize(s: VectorBinarySerializer) returns (r: Response)
      requires s.Valid() && (!s.reading ==> WellFormed(this))
      modifies s
      ensures s.Valid()
      ensures !s.reading ==> s.data == old(s.data) + EncodeResponse(this) && r == this
      ensures s.reading ==> s.ReadInto(old(s.ok), DecodeResponse(old(s.Remaining())), r) && s.data == old(s.data)
    {
      var address := s.SerializeString(ip, MAX_IP_LENGTH);
      var p := s.SerializeUInt(port, 2);
      r := Response(address, p);
    }
  }

  predicate WellFormed(r: Response) {
    |r.ip| <= MAX_IP_LENGTH
  }

  /** The IP as a string of at most 64 bytes, then the two-byte port. */
  function EncodeResponse(r: Response): (e: Bytes)
    requires WellFormed(r)
    ensures |e| == 3 + |r.ip|
  {
    EncodeString(r.ip, MAX_IP_LENGTH) + EncodeUInt(r.port, 2)
  }

  function DecodeResponse(b: Bytes): (d: Decoded<Response>)
    ensures d.Done? ==> WellFormed(d.value) && b == EncodeResponse(d.value) + d.rest
  {
    var ip :- DecodeString(b, MAX_IP_LENGTH);
    var port :- ReadUInt(ip.1, 2);
    Done(Response(ip.0, port.0), port.1)
  }

  lemma ResponseRoundTrip(r: Response, rest: Bytes)
    requires WellFormed(r)
    ensures DecodeResponse(EncodeResponse(r) + rest) == Done(r, rest)
  {
    var tail := EncodeUInt(r.port, 2) + rest;
    assert EncodeResponse(r) + rest == EncodeString(r.ip, MAX_IP_LENGTH) + tail;
    StringRoundTrip(r.ip, MAX_IP_LENGTH, tail);
    ReadEncodedUInt(r.port, 2, rest);
  }

  /** A response whose IP length byte declares more than 64 bytes is rejected. */
  lemma OverlongIpRejected(b: Bytes)
    requires |b| >= 1 && b[0] > MAX_IP_LENGTH
    ensures DecodeResponse(b).Malformed?
  {
    SingleBytePrefix(b);
  }

  /** A response is rejected when its IP is declared longer than the bytes that follow. */
  lemma TruncatedIpRejected(b: Bytes)
    requires |b| >= 1 && b[0] > |b| - 1
    ensures DecodeResponse(b).Malformed?
  {
    SingleBytePrefix(b);
  }

  class QueryData {
    constructor ()
    {
    }

    /** The query has no fields: it writes nothing and reads nothing. */
    method SerializeData(s: VectorBinarySerializer, protocolVersion: uint8)
      requires s.Valid()
      ensures s.Valid() && s.data == old(s.data) && s.Remaining() == old(s.Remaining()) && s.ok == old(s.ok)
    {
    }
  }

  class ResponseData {
    var ip: Bytes
    var port: uint16

    constructor ()
      ensures ip == [] && port == 0
    {
      ip := [];
      port := 0;
    }

    function Value(): Response
      reads this
    {
      Response(ip, port)
    }

    /**
     * Writes the IP and port to `s`, or reads them from `s` into this
     * response. Writing needs the IP within 64 bytes.
     */
    method SerializeData(s: VectorBinarySerializer, protocolVersion: uint8)
      requires s.Valid() && (!s.reading ==> WellFormed(Value()))
      modifies this, s
      ensures s.Valid()
      ensures !s.reading ==> s.data == old(s.data) + EncodeResponse(old(Value())) && Value() == old(Value())
      ensures s.reading ==> s.ReadInto(old(s.ok), DecodeResponse(old(s.Remaining())), Value()) && s.data == old(s.data)
    {
      var r := Value().Serialize(s);
      ip, port := r.ip, r.port;
    }
  }
}

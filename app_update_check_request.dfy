/**
 * The update check request: the query names the application, its platform
 * and release channel (each at most 0xff bytes) and the installed app and
 * content versions; the response carries a flag saying whether an update is
 * available and, only when it is, the available app and content versions and
 * a URL (at most 0xff bytes) with information about the update.
 */
module AppUpdateCheckRequest {
  import opened Wire
  import opened Serialization

  const MAX_NAME_LENGTH: Bound := 0xff
  const MAX_URL_LENGTH: Bound := 0xff

  datatype Query = Query(appName: Bytes, platform: Bytes, releaseChannel: Bytes,
                         installedAppVersion: uint32, installedContentVersion: uint32)
  {
    /**
     * Writes the five fields to `s` in order, or reads five fields from `s`.
     * Writing needs each name within 0xff bytes.
     */
    method Serialize(s: VectorBinarySerializer) returns (r: Query)
      requires s.Valid() && (!s.reading ==> WellFormedQuery(this))
      modifies s
      ensures s.Valid()
      ensures !s.reading ==> s.data == old(s.data) + EncodeQuery(this) && r == this
      ensures s.reading ==> s.ReadInto(old(s.ok), DecodeQuery(old(s.Remaining())), r) && s.data == old(s.data)
    {
      ghost var d0, b0, ok0 := s.data, s.Remaining(), s.ok;
      var app := s.SerializeString(appName, MAX_NAME_LENGTH);
      ghost var d1, b1, ok1 := s.data, s.Remaining(), s.ok;
      var plat := s.SerializeString(platform, MAX_NAME_LENGTH);
      ghost var d2, b2, ok2 := s.data, s.Remaining(), s.ok;
      var channel := s.SerializeString(releaseChannel, MAX_NAME_LENGTH);
      ghost var d3, b3, ok3 := s.data, s.Remaining(), s.ok;
      var appVersion := s.SerializeUInt(installedAppVersion, 4);
      ghost var d4, b4, ok4 := s.data, s.Remaining(), s.ok;
      var contentVersion := s.SerializeUInt(installedContentVersion, 4);
      r := Query(app, plat, channel, appVersion, contentVersion);
      if !s.reading {
        QueryWritten(d0, d1, d2, d3, d4, s.data, this);
      } else {
        QueryRead(b0, ok0, app, ok1, b1, plat, ok2, b2, channel, ok3, b3, appVersion, ok4, b4,
                  contentVersion, s.ok, s.Remaining());
      }
    }
  }

  datatype Response = Response(hasUpdate: bool, availableAppVersion: uint32,
                               availableContentVersion: uint32, updateInfoURL: Bytes)
  {
    /**
     * Writes the flag and, when it is set, the gated fields to `s`; or reads
     * the flag from `s` and, when it is set, the gated fields too, keeping
     * this response's own gated fields otherwise. Writing needs the URL
     * within 0xff bytes when the flag is set.
     */
    method Serialize(s: VectorBinarySerializer) returns (r: Response)
      requires s.Valid() && (!s.reading ==> WellFormedResponse(this))
      modifies s
      ensures s.Valid()
      ensures !s.reading ==> s.data == old(s.data) + EncodeResponse(this) && r == this
      ensures s.reading ==> s.ReadInto(old(s.ok), DecodeResponse(old(s.Remaining()), this), r) && s.data == old(s.data)
    {
      ghost var d0, b0, ok0 := s.data, s.Remaining(), s.ok;
      var flag := s.SerializeBool(hasUpdate);
      ghost var d1, b1, ok1 := s.data, s.Remaining(), s.ok;
      r := this.(hasUpdate := flag);
      if flag {
        var appVersion := s.SerializeUInt(availableAppVersion, 4);
        ghost var d2, b2, ok2 := s.data, s.Remaining(), s.ok;
        var contentVersion := s.SerializeUInt(availableContentVersion, 4);
        ghost var d3, b3, ok3 := s.data, s.Remaining(), s.ok;
        var url := s.SerializeString(updateInfoURL, MAX_URL_LENGTH);
        r := Response(flag, appVersion, contentVersion, url);
        if !s.reading {
          UpdateWritten(d0, d1, d2, d3, s.data, this);
        } else {
          ResponseRead(this, b0, ok0, flag, ok1, b1, appVersion, ok2, b2, contentVersion, ok3, b3,
                       url, s.ok, s.Remaining());
        }
      } else if s.reading {
        ResponseRead(this, b0, ok0, flag, ok1, b1, availableAppVersion, ok1, b1,
                     availableContentVersion, ok1, b1, updateInfoURL, s.ok, s.Remaining());
      }
    }
  }

  /** A default-constructed response: no update, zero versions, empty URL. */
  const DEFAULT_RESPONSE := Response(false, 0, 0, [])

  predicate WellFormedQuery(q: Query) {
    |q.appName| <= MAX_NAME_LENGTH && |q.platform| <= MAX_NAME_LENGTH && |q.releaseChannel| <= MAX_NAME_LENGTH
  }

  /** The URL bound matters only when the URL goes on the wire. */
  predicate WellFormedResponse(r: Response) {
    r.hasUpdate ==> |r.updateInfoURL| <= MAX_URL_LENGTH
  }

  // ----- The query -----

  /** The three names as strings of at most 0xff bytes, then the two four-byte versions. */
  function EncodeQuery(q: Query): (e: Bytes)
    requires WellFormedQuery(q)
    ensures |e| == 11 + |q.appName| + |q.platform| + |q.releaseChannel|
  {
    EncodeString(q.appName, MAX_NAME_LENGTH) + EncodeString(q.platform, MAX_NAME_LENGTH)
      + EncodeString(q.releaseChannel, MAX_NAME_LENGTH)
      + EncodeUInt(q.installedAppVersion, 4) + EncodeUInt(q.installedContentVersion, 4)
  }

  function DecodeQuery(b: Bytes): (d: Decoded<Query>)
    ensures d.Done? ==> WellFormedQuery(d.value) && b == EncodeQuery(d.value) + d.rest
  {
    var app :- DecodeString(b, MAX_NAME_LENGTH);
    var platform :- DecodeString(app.1, MAX_NAME_LENGTH);
    var channel :- DecodeString(platform.1, MAX_NAME_LENGTH);
    var appVersion :- ReadUInt(channel.1, 4);
    var contentVersion :- ReadUInt(appVersion.1, 4);
    PeelFive(b, app.1, platform.1, channel.1, appVersion.1, contentVersion.1,
             EncodeString(app.0, MAX_NAME_LENGTH), EncodeString(platform.0, MAX_NAME_LENGTH),
             EncodeString(channel.0, MAX_NAME_LENGTH), EncodeUInt(appVersion.0, 4), EncodeUInt(contentVersion.0, 4));
    Done(Query(app.0, platform.0, channel.0, appVersion.0, contentVersion.0), contentVersion.1)
  }

  lemma QueryRoundTrip(q: Query, rest: Bytes)
    requires WellFormedQuery(q)
    ensures DecodeQuery(EncodeQuery(q) + rest) == Done(q, rest)
  {
    var e1, e2 := EncodeString(q.appName, MAX_NAME_LENGTH), EncodeString(q.platform, MAX_NAME_LENGTH);
    var e3 := EncodeString(q.releaseChannel, MAX_NAME_LENGTH);
    var e4, e5 := EncodeUInt(q.installedAppVersion, 4), EncodeUInt(q.installedContentVersion, 4);
    var b4 := e5 + rest;
    var b3 := e4 + b4;
    var b2 := e3 + b3;
    var b1 := e2 + b2;
    PeelFive(e1 + b1, b1, b2, b3, b4, rest, e1, e2, e3, e4, e5);
    StringRoundTrip(q.appName, MAX_NAME_LENGTH, b1);
    StringRoundTrip(q.platform, MAX_NAME_LENGTH, b2);
    StringRoundTrip(q.releaseChannel, MAX_NAME_LENGTH, b3);
    ReadEncodedUInt(q.installedAppVersion, 4, b4);
    ReadEncodedUInt(q.installedContentVersion, 4, rest);
  }

  /** A query whose application name is declared longer than the bytes that follow is rejected. */
  lemma TruncatedAppNameRejected(b: Bytes)
    requires |b| >= 1 && b[0] > |b| - 1
    ensures DecodeQuery(b).Malformed?
  {
    SingleBytePrefix(b);
  }

  /** The five field writes of the query append exactly its encoding. */
  lemma QueryWritten(d0: Bytes, d1: Bytes, d2: Bytes, d3: Bytes, d4: Bytes, d5: Bytes, q: Query)
    requires WellFormedQuery(q)
    requires d1 == d0 + EncodeString(q.appName, MAX_NAME_LENGTH)
    requires d2 == d1 + EncodeString(q.platform, MAX_NAME_LENGTH)
    requires d3 == d2 + EncodeString(q.releaseChannel, MAX_NAME_LENGTH)
    requires d4 == d3 + EncodeUInt(q.installedAppVersion, 4)
    requires d5 == d4 + EncodeUInt(q.installedContentVersion, 4)
    ensures d5 == d0 + EncodeQuery(q)
  {
    AppendFive(d0, d1, d2, d3, d4, d5,
               EncodeString(q.appName, MAX_NAME_LENGTH), EncodeString(q.platform, MAX_NAME_LENGTH),
               EncodeString(q.releaseChannel, MAX_NAME_LENGTH),
               EncodeUInt(q.installedAppVersion, 4), EncodeUInt(q.installedContentVersion, 4));
  }

  /** The five field reads of the query read it as a whole, or fail where it does. */
  lemma QueryRead(b0: Bytes, ok0: bool, app: Bytes, ok1: bool, b1: Bytes, platform: Bytes, ok2: bool, b2: Bytes,
                  channel: Bytes, ok3: bool, b3: Bytes, appVersion: uint32, ok4: bool, b4: Bytes,
                  contentVersion: uint32, ok5: bool, b5: Bytes)
    requires ReadStep(ok0, DecodeString(b0, MAX_NAME_LENGTH), ok1, app, b1)
    requires ReadStep(ok1, DecodeString(b1, MAX_NAME_LENGTH), ok2, platform, b2)
    requires ReadStep(ok2, DecodeString(b2, MAX_NAME_LENGTH), ok3, channel, b3)
    requires ReadStep(ok3, ReadUInt(b3, 4), ok4, appVersion, b4)
    requires ReadStep(ok4, ReadUInt(b4, 4), ok5, contentVersion, b5)
    ensures ReadStep(ok0, DecodeQuery(b0), ok5, Query(app, platform, channel, appVersion, contentVersion), b5)
  {
  }

  // ----- The response -----

  /** The gated part: both versions, then the URL as a string of at most 0xff bytes. */
  function EncodeUpdate(r: Response): (e: Bytes)
    requires |r.updateInfoURL| <= MAX_URL_LENGTH
    ensures |e| == 9 + |r.updateInfoURL|
  {
    EncodeUInt(r.availableAppVersion, 4) + EncodeUInt(r.availableContentVersion, 4)
      + EncodeString(r.updateInfoURL, MAX_URL_LENGTH)
  }

  /** The flag as one byte; then, only when it is set, the gated part. */
  function EncodeResponse(r: Response): (e: Bytes)
    requires WellFormedResponse(r)
    ensures |e| == if r.hasUpdate then 10 + |r.updateInfoURL| else 1
    ensures e[0] == if r.hasUpdate then 1 else 0
  {
    EncodeBool(r.hasUpdate) + if r.hasUpdate then EncodeUpdate(r) else []
  }

  /**
   * Reads a response into `prior`, the response object's current contents:
   * the flag first, then the gated fields only when the flag is set. With the
   * flag clear nothing after it is read, and the gated fields keep their
   * values from `prior`.
   */
  function DecodeResponse(b: Bytes, prior: Response): (d: Decoded<Response>)
    ensures d.Malformed? ==> b == [] || b[0] != 0
    ensures d.Done? ==> b != [] && d.value.hasUpdate == (b[0] != 0)
    ensures d.Done? && !d.value.hasUpdate ==> d == Done(prior.(hasUpdate := false), b[1..])
    ensures d.Done? && d.value.hasUpdate ==> |d.value.updateInfoURL| <= MAX_URL_LENGTH && b[1..] == EncodeUpdate(d.value) + d.rest
    ensures d.Done? && b[0] <= 1 ==> WellFormedResponse(d.value) && b == EncodeResponse(d.value) + d.rest
  {
    var flag :- DecodeBool(b);
    if !flag.0 then Done(prior.(hasUpdate := false), flag.1)
    else
      var appVersion :- ReadUInt(flag.1, 4);
      var contentVersion :- ReadUInt(appVersion.1, 4);
      var url :- DecodeString(contentVersion.1, MAX_URL_LENGTH);
      var r := Response(true, appVersion.0, contentVersion.0, url.0);
      var e2, e3 := EncodeUInt(appVersion.0, 4), EncodeUInt(contentVersion.0, 4);
      var e4 := EncodeString(url.0, MAX_URL_LENGTH);
      SeqAssoc3(e2, e3, e4 + url.1);
      SeqAssoc3(e2 + e3, e4, url.1);
      assert flag.1 == EncodeUpdate(r) + url.1;
      Done(r, url.1)
  }

  /**
   * Reading back a written response yields it when the flag is set; when it
   * is clear, the reader keeps its own gated fields.
   */
  lemma ResponseRoundTrip(r: Response, prior: Response, rest: Bytes)
    requires WellFormedResponse(r)
    ensures DecodeResponse(EncodeResponse(r) + rest, prior)
         == Done(if r.hasUpdate then r else prior.(hasUpdate := false), rest)
  {
    var b := EncodeResponse(r) + rest;
    var flag := EncodeBool(r.hasUpdate);
    if r.hasUpdate {
      var e2, e3 := EncodeUInt(r.availableAppVersion, 4), EncodeUInt(r.availableContentVersion, 4);
      var e4 := EncodeString(r.updateInfoURL, MAX_URL_LENGTH);
      SeqAssoc3(flag, EncodeUpdate(r), rest);
      assert b[1..] == EncodeUpdate(r) + rest;
      SeqAssoc3(e2 + e3, e4, rest);
      SeqAssoc3(e2, e3, e4 + rest);
      ReadEncodedUInt(r.availableAppVersion, 4, e3 + (e4 + rest));
      ReadEncodedUInt(r.availableContentVersion, 4, e4 + rest);
      StringRoundTrip(r.updateInfoURL, MAX_URL_LENGTH, rest);
    } else {
      assert b == [0] + rest;
      NoUpdateReadsOnlyTheFlag(rest, prior);
    }
  }

  /** A response without an update is shorter on the wire than any response with one. */
  lemma NoUpdateIsShorter(without: Response, with: Response)
    requires !without.hasUpdate && with.hasUpdate && WellFormedResponse(with)
    ensures |EncodeResponse(without)| < |EncodeResponse(with)|
  {
  }

  /** With the flag clear, the encoding is the flag byte alone, whatever the gated fields hold. */
  lemma NoUpdateIsFlagOnly(r: Response)
    requires !r.hasUpdate
    ensures EncodeResponse(r) == [0]
  {
  }

  /**
   * A freshly constructed response that reads a clear flag keeps its
   * defaults: versions 0 and an empty URL, with one byte consumed.
   */
  lemma NoUpdateOnFreshResponse(rest: Bytes)
    ensures DecodeResponse([0] + rest, DEFAULT_RESPONSE) == Done(DEFAULT_RESPONSE, rest)
  {
    NoUpdateReadsOnlyTheFlag(rest, DEFAULT_RESPONSE);
  }

  /**
   * With the flag clear, the flag byte is all that is read: whatever follows
   * it is left unread, and the gated fields are not touched.
   */
  lemma {:induction false} NoUpdateReadsOnlyTheFlag(rest: Bytes, prior: Response)
    ensures DecodeResponse([0] + rest, prior) == Done(prior.(hasUpdate := false), rest)
  {
    assert ([0] + rest)[1..] == rest;
  }

  /** The three field writes after a set flag append exactly the gated part of the encoding. */
  lemma UpdateWritten(d0: Bytes, d1: Bytes, d2: Bytes, d3: Bytes, d4: Bytes, r: Response)
    requires r.hasUpdate && WellFormedResponse(r)
    requires d1 == d0 + EncodeBool(true)
    requires d2 == d1 + EncodeUInt(r.availableAppVersion, 4)
    requires d3 == d2 + EncodeUInt(r.availableContentVersion, 4)
    requires d4 == d3 + EncodeString(r.updateInfoURL, MAX_URL_LENGTH)
    ensures d4 == d0 + EncodeResponse(r)
  {
    var e2, e3 := EncodeUInt(r.availableAppVersion, 4), EncodeUInt(r.availableContentVersion, 4);
    var e4 := EncodeString(r.updateInfoURL, MAX_URL_LENGTH);
    SeqAssoc3(d1, e2, e3);
    SeqAssoc3(d1, e2 + e3, e4);
    SeqAssoc3(d0, EncodeBool(true), e2 + e3 + e4);
  }

  /** The flag read, then the three gated reads when it is set, read the response as a whole. */
  lemma ResponseRead(prior: Response, b0: Bytes, ok0: bool, flag: bool, ok1: bool, b1: Bytes,
                     appVersion: uint32, ok2: bool, b2: Bytes, contentVersion: uint32, ok3: bool, b3: Bytes,
                     url: Bytes, ok4: bool, b4: Bytes)
    requires ReadStep(ok0, DecodeBool(b0), ok1, flag, b1)
    requires flag ==> ReadStep(ok1, ReadUInt(b1, 4), ok2, appVersion, b2)
    requires flag ==> ReadStep(ok2, ReadUInt(b2, 4), ok3, contentVersion, b3)
    requires flag ==> ReadStep(ok3, DecodeString(b3, MAX_URL_LENGTH), ok4, url, b4)
    requires !flag ==> ok4 == ok1 && b4 == b1
    requires !flag ==> Response(flag, appVersion, contentVersion, url) == prior.(hasUpdate := false)
    ensures ReadStep(ok0, DecodeResponse(b0, prior), ok4, Response(flag, appVersion, contentVersion, url), b4)
  {
  }

  // ----- The request objects -----

  class QueryData {
    var appName: Bytes
    var platform: Bytes
    var releaseChannel: Bytes
    var installedAppVersion: uint32
    var installedContentVersion: uint32

    constructor ()
      ensures appName == [] && platform == [] && releaseChannel == []
      ensures installedAppVersion == 0 && installedContentVersion == 0
    {
      appName, platform, releaseChannel := [], [], [];
      installedAppVersion, installedContentVersion := 0, 0;
    }

    function Value(): Query
      reads this
    {
      Query(appName, platform, releaseChannel, installedAppVersion, installedContentVersion)
    }

    /**
     * Writes the query's fields to `s`, or reads them from `s` into this
     * query. Writing needs each name within 0xff bytes. The protocol
     * version is not consulted.
     */
    method SerializeData(s: VectorBinarySerializer, protocolVersion: uint8)
      requires s.Valid() && (!s.reading ==> WellFormedQuery(Value()))
      modifies this, s
      ensures s.Valid()
      ensures !s.reading ==> s.data == old(s.data) + EncodeQuery(old(Value())) && Value() == old(Value())
      ensures s.reading ==> s.ReadInto(old(s.ok), DecodeQuery(old(s.Remaining())), Value()) && s.data == old(s.data)
    {
      var q := Value().Serialize(s);
      appName, platform, releaseChannel := q.appName, q.platform, q.releaseChannel;
      installedAppVersion, installedContentVersion := q.installedAppVersion, q.installedContentVersion;
    }
  }

  class ResponseData {
    var hasUpdate: bool
    var availableAppVersion: uint32
    var availableContentVersion: uint32
    var updateInfoURL: Bytes

    constructor ()
      ensures Value() == DEFAULT_RESPONSE
    {
      hasUpdate, availableAppVersion, availableContentVersion, updateInfoURL := false, 0, 0, [];
    }

    function Value(): Response
      reads this
    {
      Response(hasUpdate, availableAppVersion, availableContentVersion, updateInfoURL)
    }

    /**
     * Writes the flag and, when it is set, the gated fields to `s`; or reads
     * the flag from `s` into this response and, when it is set, the gated
     * fields too. Writing needs the URL within 0xff bytes when the flag is set.
     */
    method SerializeData(s: VectorBinarySerializer, protocolVersion: uint8)
      requires s.Valid() && (!s.reading ==> WellFormedResponse(Value()))
      modifies this, s
      ensures s.Valid()
      ensures !s.reading ==> s.data == old(s.data) + EncodeResponse(old(Value())) && Value() == old(Value())
      ensures s.reading ==> s.ReadInto(old(s.ok), DecodeResponse(old(s.Remaining()), old(Value())), Value()) && s.data == old(s.data)
    {
      var r := Value().Serialize(s);
      hasUpdate, availableAppVersion, availableContentVersion, updateInfoURL :=
        r.hasUpdate, r.availableAppVersion, r.availableContentVersion, r.updateInfoURL;
    }
  }
}

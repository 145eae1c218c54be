/**
 * The feature negotiation request: the query carries nothing, and the
 * response lists, in order, at most 0xff features the server supports, each
 * an identifier of at most 0xff bytes and the range of versions supported.
 */
module GetServerFeaturesRequest {
  import opened Wire
  import opened Serialization
  import opened VersionRanges

  const MAX_FEATURES: Bound := 0xff
  const MAX_IDENTIFIER_LENGTH: Bound := 0xff

  datatype Feature = Feature(identifier: Bytes, versions: VersionRange)
  {
    /** Writes or reads the identifier (at most 0xff bytes), then the version range. */
    method Serialize(s: VectorBinarySerializer) returns (r: Feature)
      requires s.Valid() && (!s.reading ==> WellFormedFeature(this))
      modifies s
      ensures s.Valid()
      ensures !s.reading ==> s.data == old(s.data) + EncodeFeature(this) && r == this
      ensures s.reading ==> s.ReadInto(old(s.ok), DecodeFeature(old(s.Remaining())), r) && s.data == old(s.data)
    {
      var id := s.SerializeString(identifier, MAX_IDENTIFIER_LENGTH);
      var range := versions.Serialize(s);
      r := Feature(id, range);
    }
  }

  /** A default-constructed feature: empty identifier, range (0, 0). */
  const DEFAULT_FEATURE := Feature([], VersionRange(0, 0))

  /** A feature built from an identifier and the bounds of its version range. */
  function NewFeature(identifier: Bytes, minVersion: uint8, maxVersion: uint8): (f: Feature)
    ensures f.identifier == identifier
    ensures f.versions.min == minVersion && f.versions.max == maxVersion
  {
    Feature(identifier, VersionRange(minVersion, maxVersion))
  }

  datatype Response = Response(features: seq<Feature>)
  {
    /**
     * Writes the count and then each feature to `s`; or reads the count,
     * resizes the list to it and reads each feature into its place.
     * Writing needs at most 0xff features, each identifier within 0xff bytes.
     */
    method Serialize(s: VectorBinarySerializer) returns (r: Response)
      requires s.Valid() && (!s.reading ==> WellFormed(this))
      modifies s
      ensures s.Valid()
      ensures !s.reading ==> s.data == old(s.data) + EncodeResponse(this) && r == this
      ensures s.reading ==> s.ReadInto(old(s.ok), DecodeResponse(old(s.Remaining())), r) && s.data == old(s.data)
    {
      var count := s.SerializeArraySize(|features|, MAX_FEATURES);
      ghost var start, countOk, written := s.Remaining(), s.ok, s.data;
      var list := SerializeFeatureList(s, Resized(features, count));
      if s.reading {
        ResponseReadDone(old(s.Remaining()), old(s.ok), countOk, count, start, s.ok, list, s.Remaining());
      } else {
        assert Resized(features, count) == features;
        ResponseWritten(old(s.data), written, s.data, list);
      }
      r := Response(list);
    }
  }

  predicate WellFormedFeature(f: Feature) {
    |f.identifier| <= MAX_IDENTIFIER_LENGTH
  }

  predicate AllWellFormed(fs: seq<Feature>) {
    forall i :: 0 <= i < |fs| ==> WellFormedFeature(fs[i])
  }

  predicate WellFormed(r: Response) {
    |r.features| <= MAX_FEATURES && AllWellFormed(r.features)
  }

  // ----- One feature -----

  /** The identifier as a string of at most 0xff bytes, then the version range. */
  function EncodeFeature(f: Feature): (e: Bytes)
    requires WellFormedFeature(f)
    ensures |e| == 3 + |f.identifier|
  {
    EncodeString(f.identifier, MAX_IDENTIFIER_LENGTH) + EncodeVersionRange(f.versions)
  }

  function DecodeFeature(b: Bytes): (d: Decoded<Feature>)
    ensures d.Done? ==> WellFormedFeature(d.value) && b == EncodeFeature(d.value) + d.rest
  {
    var identifier :- DecodeString(b, MAX_IDENTIFIER_LENGTH);
    var versions :- DecodeVersionRange(identifier.1);
    Done(Feature(identifier.0, versions.0), versions.1)
  }

  lemma FeatureRoundTrip(f: Feature, rest: Bytes)
    requires WellFormedFeature(f)
    ensures DecodeFeature(EncodeFeature(f) + rest) == Done(f, rest)
  {
    var tail := EncodeVersionRange(f.versions) + rest;
    assert EncodeFeature(f) + rest == EncodeString(f.identifier, MAX_IDENTIFIER_LENGTH) + tail;
    StringRoundTrip(f.identifier, MAX_IDENTIFIER_LENGTH, tail);
    VersionRangeRoundTrip(f.versions, rest);
  }

  /** A constructed feature goes on the wire as its identifier, then exactly (min, max). */
  lemma NewFeatureOnTheWire(identifier: Bytes, minVersion: uint8, maxVersion: uint8)
    requires |identifier| <= MAX_IDENTIFIER_LENGTH
    ensures EncodeFeature(NewFeature(identifier, minVersion, maxVersion))
         == [|identifier|] + identifier + [minVersion, maxVersion]
  {
    OneByte(|identifier|);
    OneByte(minVersion);
    OneByte(maxVersion);
  }

  // ----- The feature list -----

  /** The features' encodings one after another, in order. */
  function EncodeFeatures(fs: seq<Feature>): (e: Bytes)
    requires AllWellFormed(fs)
    ensures |e| >= 3 * |fs|
  {
    if fs == [] then []
    else EncodeFeatures(fs[..|fs| - 1]) + EncodeFeature(fs[|fs| - 1])
  }

  /** Reads `count` features one after another. */
  function DecodeFeatures(b: Bytes, count: nat): (d: Decoded<seq<Feature>>)
    ensures d.Done? ==> |d.value| == count && AllWellFormed(d.value)
    ensures d.Done? ==> b == EncodeFeatures(d.value) + d.rest
  {
    if count == 0 then Done([], b)
    else
      var init :- DecodeFeatures(b, count - 1);
      var last :- DecodeFeature(init.1);
      var fs := init.0 + [last.0];
      assert fs[..|fs| - 1] == init.0;
      SeqAssoc3(EncodeFeatures(init.0), EncodeFeature(last.0), last.1);
      Done(fs, last.1)
  }

  lemma InitAndLast(fs: seq<Feature>)
    requires fs != []
    ensures fs[..|fs| - 1] + [fs[|fs| - 1]] == fs
  {
  }

  lemma {:induction false} FeaturesRoundTrip(fs: seq<Feature>, rest: Bytes)
    requires AllWellFormed(fs)
    ensures DecodeFeatures(EncodeFeatures(fs) + rest, |fs|) == Done(fs, rest)
  {
    if fs != [] {
      var init, last := fs[..|fs| - 1], fs[|fs| - 1];
      InitAndLast(fs);
      var tail := EncodeFeature(last) + rest;
      SeqAssoc3(EncodeFeatures(init), EncodeFeature(last), rest);
      FeaturesRoundTrip(init, tail);
      FeatureRoundTrip(last, rest);
    }
  }

  /**
   * How far a read of a feature list has got after `i` features: the first
   * `i` features read back as `done` with `rem` left over, or the read failed.
   */
  ghost predicate ReadSoFar(b: Bytes, i: nat, ok: bool, done: seq<Feature>, rem: Bytes) {
    if ok then DecodeFeatures(b, i) == Done(done, rem) else DecodeFeatures(b, i).Malformed?
  }

  /** Reading one more feature extends a successful read, and a failed one stays failed. */
  lemma ReadSoFarStep(b: Bytes, i: nat, wasOk: bool, done: seq<Feature>, r0: Bytes, ok: bool, f: Feature, r1: Bytes)
    requires ReadSoFar(b, i, wasOk, done, r0)
    requires if wasOk && DecodeFeature(r0).Done? then ok && DecodeFeature(r0) == Done(f, r1) else !ok
    ensures ReadSoFar(b, i + 1, ok, done + [f], r1)
  {
  }

  /** Writing one more feature extends the written list. */
  lemma FeatureWriteStep(written: Bytes, done: seq<Feature>, f: Feature, d0: Bytes, d1: Bytes)
    requires AllWellFormed(done) && WellFormedFeature(f)
    requires d0 == written + EncodeFeatures(done)
    requires d1 == d0 + EncodeFeature(f)
    ensures AllWellFormed(done + [f]) && d1 == written + EncodeFeatures(done + [f])
  {
    var all := done + [f];
    assert all[..|all| - 1] == done;
    SeqAssoc3(written, EncodeFeatures(done), EncodeFeature(f));
  }

  // ----- The response -----

  /** The feature count (one byte), then each feature in order. */
  function EncodeResponse(r: Response): (e: Bytes)
    requires WellFormed(r)
    ensures |e| >= 1 + 3 * |r.features|
  {
    EncodeArraySize(|r.features|, MAX_FEATURES) + EncodeFeatures(r.features)
  }

  function DecodeResponse(b: Bytes): (d: Decoded<Response>)
    ensures d.Done? ==> WellFormed(d.value) && b == EncodeResponse(d.value) + d.rest
  {
    var count :- DecodeArraySize(b, MAX_FEATURES);
    var features :- DecodeFeatures(count.1, count.0);
    Done(Response(features.0), features.1)
  }

  lemma ResponseRoundTrip(r: Response, rest: Bytes)
    requires WellFormed(r)
    ensures DecodeResponse(EncodeResponse(r) + rest) == Done(r, rest)
  {
    var tail := EncodeFeatures(r.features) + rest;
    assert EncodeResponse(r) + rest == EncodeArraySize(|r.features|, MAX_FEATURES) + tail;
    ArraySizeRoundTrip(|r.features|, MAX_FEATURES, tail);
    FeaturesRoundTrip(r.features, rest);
  }

  /** Writing the count and then each feature writes the response. */
  lemma ResponseWritten(d0: Bytes, d1: Bytes, d2: Bytes, fs: seq<Feature>)
    requires |fs| <= MAX_FEATURES && AllWellFormed(fs)
    requires d1 == d0 + EncodeArraySize(|fs|, MAX_FEATURES) && d2 == d1 + EncodeFeatures(fs)
    ensures d2 == d0 + EncodeResponse(Response(fs))
  {
    var c, e := EncodeArraySize(|fs|, MAX_FEATURES), EncodeFeatures(fs);
    SeqAssoc3(d0, c, e);
  }

  /** Reading the count and then that many features reads the response, or fails as it does. */
  lemma ResponseReadDone(b: Bytes, wasOk: bool, countOk: bool, count: nat, start: Bytes,
                         ok: bool, fs: seq<Feature>, rem: Bytes)
    requires var d := DecodeArraySize(b, MAX_FEATURES);
             if wasOk && d.Done? then countOk && d == Done(count, start) else !countOk
    requires ok ==> countOk
    requires countOk ==> ReadSoFar(start, count, ok, fs, rem)
    ensures var d := DecodeResponse(b);
            if wasOk && d.Done? then ok && d == Done(Response(fs), rem) else !ok
  {
  }

  /**
   * Every feature takes at least three bytes, so a response whose declared
   * count needs more bytes than follow the count is rejected.
   */
  lemma CountBeyondRemainingRejected(b: Bytes)
    requires |b| >= 1 && 3 * b[0] > |b| - 1
    ensures DecodeResponse(b).Malformed?
  {
  }

  /**
   * The two-feature list [("chat", 1..3), ("voice", 2..2)] reads back in
   * order from the count byte 2, then each feature as its identifier's length,
   * its bytes and its two version bytes.
   */
  lemma TwoFeatureExample()
    ensures DecodeResponse([2] + ([4] + [99, 104, 97, 116] + [1, 3]) + ([5] + [118, 111, 105, 99, 101] + [2, 2]))
         == Done(Response([Feature([99, 104, 97, 116], VersionRange(1, 3)),
                           Feature([118, 111, 105, 99, 101], VersionRange(2, 2))]), [])
  {
    var chat, voice := [99, 104, 97, 116], [118, 111, 105, 99, 101];
    var f0, f1 := NewFeature(chat, 1, 3), NewFeature(voice, 2, 2);
    var e0, e1 := EncodeFeature(f0), EncodeFeature(f1);
    NewFeatureOnTheWire(chat, 1, 3);
    NewFeatureOnTheWire(voice, 2, 2);
    var fs := [f0, f1];
    assert [f0][..0] == [];
    assert EncodeFeatures([f0]) == e0;
    assert fs[..1] == [f0];
    assert EncodeFeatures(fs) == e0 + e1;
    OneByte(2);
    assert EncodeResponse(Response(fs)) + [] == [2] + e0 + e1;
    ResponseRoundTrip(Response(fs), []);
  }

  // ----- The request objects -----

  /** `xs` resized to `n` elements: a prefix kept, new places default features. */
  function Resized(xs: seq<Feature>, n: nat): (r: seq<Feature>)
    ensures |r| == n
    ensures forall i :: 0 <= i < n ==> r[i] == if i < |xs| then xs[i] else DEFAULT_FEATURE
  {
    if n <= |xs| then xs[..n] else xs + seq(n - |xs|, _ => DEFAULT_FEATURE)
  }

  /**
   * Where a pass over a feature list stands after `i` elements, given the
   * serializer's mode, its health `ok0`, unread bytes `b0` and written bytes
   * `d0` before the pass: writing has appended the first `i` encodings and
   * left the list as it was; reading has left the buffer as it was and has
   * either read `i` features into the front of `r`, leaving `rem` unread, or
   * failed.
   */
  ghost predicate ListProgress(reading: bool, ok0: bool, b0: Bytes, d0: Bytes, list: seq<Feature>,
                               i: nat, r: seq<Feature>, ok: bool, data: Bytes, rem: Bytes)
  {
    i <= |r| == |list|
    && (!reading ==> r == list && AllWellFormed(list) && data == d0 + EncodeFeatures(list[..i]))
    && (reading ==> data == d0)
    && (reading && ok0 ==> ReadSoFar(b0, i, ok, r[..i], rem))
    && (reading && !ok0 ==> !ok)
  }

  /** Serializing element `i` in place moves the pass on by one element. */
  lemma ListProgressStep(reading: bool, ok0: bool, b0: Bytes, d0: Bytes, list: seq<Feature>,
                         i: nat, r: seq<Feature>, ok: bool, data: Bytes, rem: Bytes,
                         f: Feature, ok': bool, data': Bytes, rem': Bytes)
    requires ListProgress(reading, ok0, b0, d0, list, i, r, ok, data, rem) && i < |r|
    requires !reading ==> f == r[i] && WellFormedFeature(f) && data' == data + EncodeFeature(f)
    requires reading ==> data' == data && if ok && DecodeFeature(rem).Done? then ok' && DecodeFeature(rem) == Done(f, rem') else !ok'
    ensures ListProgress(reading, ok0, b0, d0, list, i + 1, r[i := f], ok', data', rem')
  {
    var done := r[..i];
    assert r[i := f][..i + 1] == done + [f];
    if !reading {
      FeatureWriteStep(d0, done, f, data, data');
    } else if ok0 {
      ReadSoFarStep(b0, i, ok, done, rem, ok', f, rem');
    }
  }

  /** Serializes element `i` of the list in place, moving the pass on by one element. */
  method SerializeElement(s: VectorBinarySerializer, ghost ok0: bool, ghost b0: Bytes, ghost d0: Bytes,
                          ghost list: seq<Feature>, i: nat, r: seq<Feature>) returns (r': seq<Feature>)
    requires s.Valid() && i < |r|
    requires ListProgress(s.reading, ok0, b0, d0, list, i, r, s.ok, s.data, s.Remaining())
    modifies s
    ensures s.Valid()
    ensures ListProgress(s.reading, ok0, b0, d0, list, i + 1, r', s.ok, s.data, s.Remaining())
  {
    ghost var ok1, data1, rem1 := s.ok, s.data, s.Remaining();
    var feature := r[i].Serialize(s);
    ListProgressStep(s.reading, ok0, b0, d0, list, i, r, ok1, data1, rem1, feature, s.ok, s.data, s.Remaining());
    r' := r[i := feature];
  }

  /**
   * Serializes each feature of `list` in turn, in place: in write mode the
   * list comes back unchanged, in read mode with the features read.
   */
  method SerializeFeatureList(s: VectorBinarySerializer, list: seq<Feature>) returns (r: seq<Feature>)
    requires s.Valid() && (!s.reading ==> AllWellFormed(list))
    modifies s
    ensures s.Valid() && |r| == |list|
    ensures !s.reading ==> r == list && s.data == old(s.data) + EncodeFeatures(list)
    ensures s.reading && old(s.ok) ==> ReadSoFar(old(s.Remaining()), |list|, s.ok, r, s.Remaining())
    ensures s.reading && !old(s.ok) ==> !s.ok
    ensures s.reading ==> s.data == old(s.data)
  {
    ghost var ok0, b0, d0 := s.ok, s.Remaining(), s.data;
    r := list;
    var i := 0;
    assert list[..0] == [];
    while i < |r|
      invariant s.Valid()
      invariant ListProgress(s.reading, ok0, b0, d0, list, i, r, s.ok, s.data, s.Remaining())
    {
      r := SerializeElement(s, ok0, b0, d0, list, i, r);
      i := i + 1;
    }
    assert r[..i] == r && list[..i] == list;
  }

  class QueryData {
    constructor ()
    {
    }

    /** The query has no fields: it writes nothing and reads nothing. */
    method SerializeData(s: VectorBinarySerializer, protocolVersion: uint8)
      requires s.Valid()
      ensures s.Valid() && s.data == old(s.data) && s.Remaining() == old(s.Remaining()) && s.ok == old(s.ok)
    {
    }
  }

  class ResponseData {
    var features: seq<Feature>

    constructor ()
      ensures features == []
    {
      features := [];
    }

    function Value(): Response
      reads this
    {
      Response(features)
    }

    /**
     * Writes the count and then each feature to `s`, or reads the count,
     * resizes the list to it and reads each feature into its place.
     */
    method SerializeData(s: VectorBinarySerializer, protocolVersion: uint8)
      requires s.Valid() && (!s.reading ==> WellFormed(Value()))
      modifies this, s
      ensures s.Valid()
      ensures !s.reading ==> s.data == old(s.data) + EncodeResponse(old(Value())) && Value() == old(Value())
      ensures s.reading ==> s.ReadInto(old(s.ok), DecodeResponse(old(s.Remaining())), Value()) && s.data == old(s.data)
    {
      var r := Value().Serialize(s);
      features := r.features;
    }
  }
}

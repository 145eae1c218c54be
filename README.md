# Oxygen netcore packet layouts, in Dafny

This project models the wire layouts that the Oxygen engine's server/client
packets put on the wire, as declared in
`Oxygen/oxygenengine/source/oxygen_netcore/serverclient/Packets.h`:

- the two connectionless (low-level) packets used to discover a client's
  external address, `GetExternalAddressConnectionless` and
  `ReplyExternalAddressConnectionless`, with their 16-bit signatures;
- the `QueryData` and `ResponseData` payloads of the high-level requests
  `GetServerFeaturesRequest`, `GetExternalAddressRequest` and
  `AppUpdateCheckRequest`.

In the engine, each payload has one `serializeContent`/`serializeData` body.
That body runs against a `VectorBinarySerializer`, which either writes the
fields into a byte buffer or reads them back from one at a cursor,
overwriting the struct's fields in place. The model keeps that shape in
three layers:

- `Wire` (`wire.dfy`) is the byte codec the serializer is built on. It
  covers fixed-width unsigned integers, booleans as one byte, byte strings
  after a bounded length prefix, and bounded element counts. Each encoder
  has a decoder that yields `Done(value, rest)` or `Malformed`, and each
  pair has a round-trip lemma.
- `Serialization` (`serializer.dfy`) is the serializer as a class. Its
  fields are a direction flag, the buffer, the cursor and a health flag
  that stays cleared after the first failed read. Each `Serialize…`
  method has two contracts. In write mode it appends the field's
  encoding. In read mode it reads through the matching decoder
  (`ReadInto`) and leaves the buffer as it was.
- One module per packet family has three parts:
  - A datatype holding the payload's fields, with `Encode…`/`Decode…`
    functions and round-trip and rejection lemmas.
  - A `Serialize` method on that datatype, which is the field-by-field body.
  - A class with the struct's fields. Its `SerializeContent`/`SerializeData`
    runs the body and stores what it hands back in the fields.

  Each body is proved against the functions. In write mode it appends
  exactly `Encode(value)` and leaves the fields as they were. In read mode
  it does exactly what `Decode` does on the unread bytes: the same values,
  the same bytes consumed, and failure exactly when `Decode` fails, with
  the buffer itself left as it was.

Some choices are fixed by the model, because the serializer's code is not
part of it:
- Integers are little-endian. One byte order is used for every field.
- A length or count prefix is 1, 2 or 4 bytes wide: the smallest unsigned
  type that holds the bound. Every bound here is 64 or 0xff, so every
  prefix is one byte.
- A boolean is written as 1 or 0, and any non-zero byte reads as true.

Two consequences of the one-byte prefix are proved in
`Wire.ByteBoundOnlyRejectsTruncation`. A declared length over 0xff cannot
occur, so a 0xff-bounded string is rejected only when it is cut short. A
count prefix under a bound of 0xff is never rejected for its value.

## Model

| member | source | states |
|---|---|---|
| Wire.EncodeUInt | Oxygen/oxygenengine/source/oxygen_netcore/serverclient/Packets.h:33-34 | a value below 256 to the power `width` is written in exactly `width` bytes, least significant byte first |
| Wire.ReadUInt | Oxygen/oxygenengine/source/oxygen_netcore/serverclient/Packets.h:33-34 | reading a fixed-width integer fails exactly when fewer bytes remain than its width; on success the bytes are the value's encoding followed by the rest |
| Wire.DecodeEncodeUInt | Oxygen/oxygenengine/source/oxygen_netcore/serverclient/Packets.h:33-34 | decoding the little-endian bytes of a value gives the value back |
| Wire.EncodeDecodeUInt | Oxygen/oxygenengine/source/oxygen_netcore/serverclient/Packets.h:33-34 | every byte sequence is the encoding of the number it decodes to |
| Wire.ReadEncodedUInt | Oxygen/oxygenengine/source/oxygen_netcore/serverclient/Packets.h:33-34 | an encoded integer reads back as itself and leaves the following bytes unread |
| Wire.EncodeBool | Oxygen/oxygenengine/source/oxygen_netcore/serverclient/Packets.h:155 | a flag is written as one byte |
| Wire.DecodeBool | Oxygen/oxygenengine/source/oxygen_netcore/serverclient/Packets.h:155 | a flag read fails only on empty input, reads true exactly for a non-zero byte, consumes one byte, and a 0/1 byte is the encoding of the flag read |
| Wire.BoolRoundTrip | Oxygen/oxygenengine/source/oxygen_netcore/serverclient/Packets.h:155 | a written flag reads back as itself and leaves what follows unread |
| Wire.PrefixWidth | Oxygen/oxygenengine/source/oxygen_netcore/serverclient/Packets.h:52 | the length prefix is 1, 2 or 4 bytes, holds the bound, and is the smallest such width |
| Wire.EncodeString | Oxygen/oxygenengine/source/oxygen_netcore/serverclient/Packets.h:52 | a string is written as its length prefix followed by exactly its bytes |
| Wire.DecodeString | Oxygen/oxygenengine/source/oxygen_netcore/serverclient/Packets.h:52 | a string read fails exactly when the prefix is cut short, the declared length is over the bound, or it is over the bytes remaining; on success the string is within the bound and the input is its encoding followed by the rest |
| Wire.StringRoundTrip | Oxygen/oxygenengine/source/oxygen_netcore/serverclient/Packets.h:52 | a string within the bound reads back as itself, leaving what follows unread |
| Wire.EncodeArraySize | Oxygen/oxygenengine/source/oxygen_netcore/serverclient/Packets.h:86 | a count is written as a prefix of `PrefixWidth(maxCount)` bytes |
| Wire.DecodeArraySize | Oxygen/oxygenengine/source/oxygen_netcore/serverclient/Packets.h:86 | a count read fails exactly when the prefix is cut short or the count is over the bound; on success the input is the count's encoding followed by the rest |
| Wire.ArraySizeRoundTrip | Oxygen/oxygenengine/source/oxygen_netcore/serverclient/Packets.h:86 | a count within the bound reads back as itself |
| Wire.SingleBytePrefix | Oxygen/oxygenengine/source/oxygen_netcore/serverclient/Packets.h:89 | under a bound of 0xff the prefix is the single first byte |
| Wire.ByteBoundOnlyRejectsTruncation | Oxygen/oxygenengine/source/oxygen_netcore/serverclient/Packets.h:86-89 | under a bound of 0xff a string is rejected exactly when cut short, and a count exactly when no byte remains |
| Serialization.VectorBinarySerializer.SerializeUInt | Oxygen/oxygenengine/source/oxygen_netcore/serverclient/Packets.h:33-34 | writing appends the integer's encoding and returns the value; reading returns what `ReadUInt` reads and moves past it, or marks the serializer failed, and leaves the buffer unchanged |
| Serialization.VectorBinarySerializer.SerializeBool | Oxygen/oxygenengine/source/oxygen_netcore/serverclient/Packets.h:155 | writing appends the flag byte; reading returns what `DecodeBool` reads, or marks the serializer failed, and leaves the buffer unchanged |
| Serialization.VectorBinarySerializer.SerializeString | Oxygen/oxygenengine/source/oxygen_netcore/serverclient/Packets.h:52 | writing appends the prefixed string; reading returns what `DecodeString` reads, or marks the serializer failed, and leaves the buffer unchanged |
| Serialization.VectorBinarySerializer.SerializeArraySize | Oxygen/oxygenengine/source/oxygen_netcore/serverclient/Packets.h:86 | writing appends the count; reading returns what `DecodeArraySize` reads, or marks the serializer failed, and leaves the buffer unchanged |
| VersionRanges.VersionRange.Serialize | Oxygen/oxygenengine/source/oxygen_netcore/serverclient/Packets.h:90 | a version range is written as min then max, one byte each, and read back the same way |
| VersionRanges.EncodeVersionRange | Oxygen/oxygenengine/source/oxygen_netcore/serverclient/Packets.h:90 | a version range is the two bytes min then max |
| VersionRanges.DecodeVersionRange | Oxygen/oxygenengine/source/oxygen_netcore/serverclient/Packets.h:90 | a version range read fails exactly when fewer than two bytes remain, and otherwise is the inverse of its encoding |
| VersionRanges.VersionRangeRoundTrip | Oxygen/oxygenengine/source/oxygen_netcore/serverclient/Packets.h:90 | a version range reads back as itself |
| ConnectionlessPackets.ConnectionlessPacket.Signature | Oxygen/oxygenengine/source/oxygen_netcore/serverclient/Packets.h:28-46 | the address query has signature 0x3bcf and the reply 0xf151, each in both directions, so the signature tells the two apart |
| ConnectionlessPackets.EncodeAddressQuery | Oxygen/oxygenengine/source/oxygen_netcore/serverclient/Packets.h:31-35 | the address query is 9 bytes on the wire |
| ConnectionlessPackets.DecodeAddressQuery | Oxygen/oxygenengine/source/oxygen_netcore/serverclient/Packets.h:31-35 | an address query read fails exactly when fewer than 9 bytes remain, and otherwise is the inverse of its encoding |
| ConnectionlessPackets.AddressQueryRoundTrip | Oxygen/oxygenengine/source/oxygen_netcore/serverclient/Packets.h:31-35 | an address query (version, query id) reads back as itself |
| ConnectionlessPackets.AddressQuery.Serialize | Oxygen/oxygenengine/source/oxygen_netcore/serverclient/Packets.h:31-35 | the body writes version then query id, and reads them back exactly as `DecodeAddressQuery` does |
| ConnectionlessPackets.GetExternalAddressConnectionless.constructor | Oxygen/oxygenengine/source/oxygen_netcore/serverclient/Packets.h:25-26 | a new query has packet version 1 and query id 0 |
| ConnectionlessPackets.GetExternalAddressConnectionless.SerializeContent | Oxygen/oxygenengine/source/oxygen_netcore/serverclient/Packets.h:31-35 | writing appends the query's encoding and leaves its fields; reading sets the fields to what `DecodeAddressQuery` reads |
| ConnectionlessPackets.EncodeAddressReply | Oxygen/oxygenengine/source/oxygen_netcore/serverclient/Packets.h:48-54 | the reply is 12 bytes plus the IP on the wire |
| ConnectionlessPackets.DecodeAddressReply | Oxygen/oxygenengine/source/oxygen_netcore/serverclient/Packets.h:48-54 | a successful reply read has an IP within 64 bytes, and the input is its encoding followed by the rest |
| ConnectionlessPackets.AddressReplyRoundTrip | Oxygen/oxygenengine/source/oxygen_netcore/serverclient/Packets.h:48-54 | a reply (version, query id, IP of at most 64 bytes, port) reads back as itself |
| ConnectionlessPackets.OverlongReplyIpRejected | Oxygen/oxygenengine/source/oxygen_netcore/serverclient/Packets.h:52 | a reply whose IP length byte is over 64 is rejected |
| ConnectionlessPackets.ReplyWritten | Oxygen/oxygenengine/source/oxygen_netcore/serverclient/Packets.h:50-53 | the four field writes append exactly the reply's encoding |
| ConnectionlessPackets.ReplyRead | Oxygen/oxygenengine/source/oxygen_netcore/serverclient/Packets.h:50-53 | the four field reads read the reply as a whole, or fail where `DecodeAddressReply` fails |
| ConnectionlessPackets.AddressReply.Serialize | Oxygen/oxygenengine/source/oxygen_netcore/serverclient/Packets.h:48-54 | the body writes the reply's encoding, and reads exactly as `DecodeAddressReply` does |
| ConnectionlessPackets.ReplyExternalAddressConnectionless.constructor | Oxygen/oxygenengine/source/oxygen_netcore/serverclient/Packets.h:40-43 | a new reply has version 1, query id 0, empty IP and port 0 |
| ConnectionlessPackets.ReplyExternalAddressConnectionless.SerializeContent | Oxygen/oxygenengine/source/oxygen_netcore/serverclient/Packets.h:48-54 | writing appends the reply's encoding and leaves its fields; reading sets the fields to what `DecodeAddressReply` reads |
| GetServerFeaturesRequest.QueryData.SerializeData | Oxygen/oxygenengine/source/oxygen_netcore/serverclient/Packets.h:67-69 | the empty query writes no byte, reads no byte and leaves the serializer's health as it was |
| GetServerFeaturesRequest.NewFeature | Oxygen/oxygenengine/source/oxygen_netcore/serverclient/Packets.h:79-80 | a constructed feature holds the identifier and the version range (min, max) |
| GetServerFeaturesRequest.NewFeatureOnTheWire | Oxygen/oxygenengine/source/oxygen_netcore/serverclient/Packets.h:80 | a constructed feature is written as its identifier's length, its bytes, then exactly min and max |
| GetServerFeaturesRequest.EncodeFeature | Oxygen/oxygenengine/source/oxygen_netcore/serverclient/Packets.h:89-90 | a feature is 3 bytes plus its identifier on the wire |
| GetServerFeaturesRequest.DecodeFeature | Oxygen/oxygenengine/source/oxygen_netcore/serverclient/Packets.h:89-90 | a successful feature read has an identifier within 0xff bytes, and the input is its encoding followed by the rest |
| GetServerFeaturesRequest.FeatureRoundTrip | Oxygen/oxygenengine/source/oxygen_netcore/serverclient/Packets.h:89-90 | a feature reads back as itself |
| GetServerFeaturesRequest.Feature.Serialize | Oxygen/oxygenengine/source/oxygen_netcore/serverclient/Packets.h:89-90 | the loop body writes the feature's encoding, and reads exactly as `DecodeFeature` does |
| GetServerFeaturesRequest.EncodeFeatures | Oxygen/oxygenengine/source/oxygen_netcore/serverclient/Packets.h:87-91 | the features are written one after another, each at least 3 bytes |
| GetServerFeaturesRequest.DecodeFeatures | Oxygen/oxygenengine/source/oxygen_netcore/serverclient/Packets.h:87-91 | reading `count` features yields exactly `count` well-formed features whose encodings, in order, are the bytes consumed |
| GetServerFeaturesRequest.FeaturesRoundTrip | Oxygen/oxygenengine/source/oxygen_netcore/serverclient/Packets.h:87-91 | a list of features reads back as the same features in the same order |
| GetServerFeaturesRequest.ReadSoFarStep | Oxygen/oxygenengine/source/oxygen_netcore/serverclient/Packets.h:87-91 | reading one more feature extends a successful partial read by that feature, and a failed read stays failed |
| GetServerFeaturesRequest.FeatureWriteStep | Oxygen/oxygenengine/source/oxygen_netcore/serverclient/Packets.h:87-91 | writing one more feature extends the written list by it |
| GetServerFeaturesRequest.ListProgressStep | Oxygen/oxygenengine/source/oxygen_netcore/serverclient/Packets.h:87-91 | serializing element `i` in place moves the pass over the list on by one element, in both directions |
| GetServerFeaturesRequest.SerializeElement | Oxygen/oxygenengine/source/oxygen_netcore/serverclient/Packets.h:89-90 | serializing one element keeps the loop's progress invariant one element further on |
| GetServerFeaturesRequest.SerializeFeatureList | Oxygen/oxygenengine/source/oxygen_netcore/serverclient/Packets.h:87-91 | the loop writes every feature's encoding in order and keeps the list; reading fills the list in order exactly as `DecodeFeatures` reads it, or fails |
| GetServerFeaturesRequest.Resized | Oxygen/oxygenengine/source/oxygen_netcore/serverclient/Packets.h:86 | resizing keeps a prefix of the list and fills new places with default features |
| GetServerFeaturesRequest.EncodeResponse | Oxygen/oxygenengine/source/oxygen_netcore/serverclient/Packets.h:84-92 | the response is at least 1 byte plus 3 per feature |
| GetServerFeaturesRequest.DecodeResponse | Oxygen/oxygenengine/source/oxygen_netcore/serverclient/Packets.h:84-92 | a successful response read has at most 0xff well-formed features, and the input is its encoding followed by the rest |
| GetServerFeaturesRequest.ResponseRoundTrip | Oxygen/oxygenengine/source/oxygen_netcore/serverclient/Packets.h:84-92 | a features response reads back with the same features in the same order |
| GetServerFeaturesRequest.ResponseWritten | Oxygen/oxygenengine/source/oxygen_netcore/serverclient/Packets.h:86-91 | writing the count and then the features writes the response |
| GetServerFeaturesRequest.ResponseReadDone | Oxygen/oxygenengine/source/oxygen_netcore/serverclient/Packets.h:86-91 | reading the count and then that many features reads the response, or fails where it does |
| GetServerFeaturesRequest.CountBeyondRemainingRejected | Oxygen/oxygenengine/source/oxygen_netcore/serverclient/Packets.h:86-91 | a declared count needing more bytes than follow is rejected |
| GetServerFeaturesRequest.TwoFeatureExample | Oxygen/oxygenengine/source/oxygen_netcore/serverclient/Packets.h:84-92 | the concrete bytes of a two-feature response read back as those features in order |
| GetServerFeaturesRequest.Response.Serialize | Oxygen/oxygenengine/source/oxygen_netcore/serverclient/Packets.h:84-92 | the body writes the response's encoding, and reads exactly as `DecodeResponse` does |
| GetServerFeaturesRequest.ResponseData.constructor | Oxygen/oxygenengine/source/oxygen_netcore/serverclient/Packets.h:82 | a new response has no features |
| GetServerFeaturesRequest.ResponseData.SerializeData | Oxygen/oxygenengine/source/oxygen_netcore/serverclient/Packets.h:84-92 | writing appends the response's encoding and leaves the list; reading replaces the list with what `DecodeResponse` reads |
| GetExternalAddressRequest.QueryData.SerializeData | Oxygen/oxygenengine/source/oxygen_netcore/serverclient/Packets.h:105-107 | the empty query writes no byte, reads no byte and leaves the serializer's health as it was |
| GetExternalAddressRequest.EncodeResponse | Oxygen/oxygenengine/source/oxygen_netcore/serverclient/Packets.h:115-119 | the response is 3 bytes plus the IP on the wire |
| GetExternalAddressRequest.DecodeResponse | Oxygen/oxygenengine/source/oxygen_netcore/serverclient/Packets.h:115-119 | a successful response read has an IP within 64 bytes, and the input is its encoding followed by the rest |
| GetExternalAddressRequest.ResponseRoundTrip | Oxygen/oxygenengine/source/oxygen_netcore/serverclient/Packets.h:115-119 | an (IP, port) response with an IP of at most 64 bytes reads back as itself |
| GetExternalAddressRequest.OverlongIpRejected | Oxygen/oxygenengine/source/oxygen_netcore/serverclient/Packets.h:117 | an IP length byte over 64 is rejected |
| GetExternalAddressRequest.TruncatedIpRejected | Oxygen/oxygenengine/source/oxygen_netcore/serverclient/Packets.h:117 | an IP declared longer than the bytes that follow is rejected |
| GetExternalAddressRequest.Response.Serialize | Oxygen/oxygenengine/source/oxygen_netcore/serverclient/Packets.h:115-119 | the body writes the response's encoding, and reads exactly as `DecodeResponse` does |
| GetExternalAddressRequest.ResponseData.constructor | Oxygen/oxygenengine/source/oxygen_netcore/serverclient/Packets.h:112-113 | a new response has an empty IP and port 0 |
| GetExternalAddressRequest.ResponseData.SerializeData | Oxygen/oxygenengine/source/oxygen_netcore/serverclient/Packets.h:115-119 | writing appends the response's encoding and leaves the fields; reading sets them to what `DecodeResponse` reads |
| AppUpdateCheckRequest.EncodeQuery | Oxygen/oxygenengine/source/oxygen_netcore/serverclient/Packets.h:136-143 | the query is 11 bytes plus its three names on the wire |
| AppUpdateCheckRequest.DecodeQuery | Oxygen/oxygenengine/source/oxygen_netcore/serverclient/Packets.h:136-143 | a successful query read has names within 0xff bytes, and the input is its encoding followed by the rest |
| AppUpdateCheckRequest.QueryRoundTrip | Oxygen/oxygenengine/source/oxygen_netcore/serverclient/Packets.h:136-143 | a query with in-bound names reads back as itself |
| AppUpdateCheckRequest.TruncatedAppNameRejected | Oxygen/oxygenengine/source/oxygen_netcore/serverclient/Packets.h:138 | an application name declared longer than the bytes that follow is rejected |
| AppUpdateCheckRequest.QueryWritten | Oxygen/oxygenengine/source/oxygen_netcore/serverclient/Packets.h:138-142 | the five field writes append exactly the query's encoding |
| AppUpdateCheckRequest.QueryRead | Oxygen/oxygenengine/source/oxygen_netcore/serverclient/Packets.h:138-142 | the five field reads read the query as a whole, or fail where `DecodeQuery` fails |
| AppUpdateCheckRequest.Query.Serialize | Oxygen/oxygenengine/source/oxygen_netcore/serverclient/Packets.h:136-143 | the body writes the query's encoding, and reads exactly as `DecodeQuery` does |
| AppUpdateCheckRequest.QueryData.constructor | Oxygen/oxygenengine/source/oxygen_netcore/serverclient/Packets.h:130-134 | a new query has empty names and zero versions |
| AppUpdateCheckRequest.QueryData.SerializeData | Oxygen/oxygenengine/source/oxygen_netcore/serverclient/Packets.h:136-143 | writing appends the query's encoding and leaves the fields; reading sets them to what `DecodeQuery` reads |
| AppUpdateCheckRequest.EncodeUpdate | Oxygen/oxygenengine/source/oxygen_netcore/serverclient/Packets.h:157-159 | the gated part is 9 bytes plus the URL |
| AppUpdateCheckRequest.EncodeResponse | Oxygen/oxygenengine/source/oxygen_netcore/serverclient/Packets.h:153-161 | the response is the flag byte alone when there is no update, and 10 bytes plus the URL when there is one |
| AppUpdateCheckRequest.DecodeResponse | Oxygen/oxygenengine/source/oxygen_netcore/serverclient/Packets.h:153-161 | the flag read decides the rest: a clear flag consumes one byte and keeps the object's gated fields; a set flag is followed by the update's encoding, with the URL within its bound, whatever the flag byte; a failure needs an empty input or a set flag; with a 0/1 flag byte the input is the result's encoding followed by the rest |
| AppUpdateCheckRequest.ResponseRoundTrip | Oxygen/oxygenengine/source/oxygen_netcore/serverclient/Packets.h:153-161 | a response with an update reads back as itself; one without reads back as the reader's own fields with the flag clear |
| AppUpdateCheckRequest.NoUpdateIsShorter | Oxygen/oxygenengine/source/oxygen_netcore/serverclient/Packets.h:155-161 | a response without an update is strictly shorter than any response with one |
| AppUpdateCheckRequest.NoUpdateIsFlagOnly | Oxygen/oxygenengine/source/oxygen_netcore/serverclient/Packets.h:155-161 | without an update the encoding is the single byte 0, whatever the gated fields hold |
| AppUpdateCheckRequest.NoUpdateReadsOnlyTheFlag | Oxygen/oxygenengine/source/oxygen_netcore/serverclient/Packets.h:155-161 | a clear flag consumes exactly one byte, leaves every following byte unread and leaves the gated fields untouched |
| AppUpdateCheckRequest.NoUpdateOnFreshResponse | Oxygen/oxygenengine/source/oxygen_netcore/serverclient/Packets.h:148-161 | a freshly constructed response that reads a clear flag keeps versions 0 and an empty URL |
| AppUpdateCheckRequest.UpdateWritten | Oxygen/oxygenengine/source/oxygen_netcore/serverclient/Packets.h:155-160 | the flag write and the three gated writes append exactly the response's encoding |
| AppUpdateCheckRequest.ResponseRead | Oxygen/oxygenengine/source/oxygen_netcore/serverclient/Packets.h:155-160 | the flag read, then the gated reads only when it is set, read the response as `DecodeResponse` does |
| AppUpdateCheckRequest.Response.Serialize | Oxygen/oxygenengine/source/oxygen_netcore/serverclient/Packets.h:153-161 | the body writes the flag and, only when set, the gated fields; it reads exactly as `DecodeResponse` reads into the current fields |
| AppUpdateCheckRequest.ResponseData.constructor | Oxygen/oxygenengine/source/oxygen_netcore/serverclient/Packets.h:148-151 | a new response has no update, zero versions and an empty URL |
| AppUpdateCheckRequest.ResponseData.SerializeData | Oxygen/oxygenengine/source/oxygen_netcore/serverclient/Packets.h:153-161 | writing appends the response's encoding and leaves the fields; reading sets the fields to what `DecodeResponse` reads into them |

## Left out

- The serializer's own code is not part of this model. The byte order (little-endian) and the boolean rule (non-zero reads as true) are choices of the model. Each is applied the same way to every field.
- Serialization.VectorBinarySerializer.SerializeString: writing a string longer than its bound is excluded by a precondition. What the serializer does then is not part of this model. The same holds for `SerializeArraySize` with a count over its bound, and so for every write whose payload breaks its bounds (`WellFormed…`).
- After a failed read the fields' values are left unspecified. Only the serializer's failed state is stated, because the caller discards a packet whose read failed.
- `VersionRange` is an opaque pair of one-byte versions. Its `contains` and any check of min <= max are left out. The range of a default-constructed `Feature` is taken to be (0, 0), because the `VersionRange` code is not part of this model. That default matters only after a failed read.
- The `lowlevel::PacketBase` envelope (the signature prefix and dispatch on it) is not modelled. Neither are `highlevel::RequestBase` (correlation ids, request lifecycle, timeouts) or the `HIGHLEVEL_REQUEST_DEFINE_FUNCTIONALITY` macro. The signatures appear only as the `Signature` function.
- The `protocolVersion` parameter is accepted and ignored, as in every modelled body. No version-dependent layout is modelled.
- The channel-broadcast and file-transfer packet families, the transport, and the main menu code are not modelled.
- In the features response, a declared count or identifier length above 0xff cannot be expressed in a one-byte prefix. The bound check therefore never fires, and the model proves exactly that (`Wire.ByteBoundOnlyRejectsTruncation`) instead of a rejection.
- In the update check response, a clear flag leaves the gated fields as the response object held them, as the body does, rather than resetting them. They are the defaults (0, 0, empty) only for a freshly constructed object (`NoUpdateOnFreshResponse`).

# rustls record layer: wire enums and outbound record framing

This project models two pure, byte-level parts of rustls's TLS record layer and proves
properties of them in Dafny.

- **`enum_builder!`** (`rustls/src/msgs/macros.rs`). This macro generates every wire
  enumeration: a table of named constants plus an `Unknown(x)` fallback, backed by a `u8` or
  a `u16`. The model is generic: an `EnumSpec` gives the enum's name, its width and its table
  in source order. A value is `Named(i)` (the i-th arm) or `Unknown(x)`. The model covers
  `get_u8`/`get_u16`, `get_array`, `as_str`, `From<uint>` (the first matching arm wins),
  `Codec::encode` and `Codec::read`.
- **The outbound TLS record** (`rustls/src/msgs/message/outbound_opaque.rs`). This is the
  TLSPlaintext/TLSCiphertext record of section 5.1 of RFC 8446 and sections 6.2.1 and 6.2.3
  of RFC 5246. The model covers:
  - the fail-fast header validator `read_opaque_message_header`;
  - `OutboundOpaqueMessage::read` (the header, then `take(len)`);
  - the `PrefixedPayload` buffer with its five-byte reserved prefix;
  - `encode`, which stamps the header into that prefix;
  - the constants `MAX_PAYLOAD` (18432), `HEADER_SIZE` (5) and `MAX_WIRE_SIZE` (18437).

Modules:

- `Wrappers`: `Option` and `Result`.
- `Bytes`: `uint8`/`uint16`, big-endian encoding, and bitwise AND on naturals.
- `Codec`: the byte cursor the record layer reads through. Its implementation is not part of
  this model, so the module states the assumed behaviour. A reader is bytes plus an offset.
  `u8`/`u16` reads are big-endian and fail when bytes run out. `take(n)` is `None` when fewer
  than n bytes remain.
- `EnumBuilder`: the macro's generated behaviour.
- `OutboundOpaque`: the record.
- `TlsTables`: an example instance with the registered TLS content types and protocol
  versions, and the header rules worked through on concrete bytes. The real `ContentType` and
  `ProtocolVersion` tables are not part of this model. The validator is stated over a
  `Tables` parameter: the content-type table, the index of its `ApplicationData` variant, and
  the version table.

The version check `(v & 0xff00) != 0x0300` is written in the model as "the high byte is not 3"
(`LegacyVersionFamily`). `LegacyVersionFamilyIsMask` proves the two agree on every 16-bit
version, using a bitwise AND defined on naturals in `Bytes`.

The header `16 03 01 42 10` declares a length of 0x4210 = 16912. That is below `MAX_PAYLOAD`,
so the validator accepts it. Five bytes alone are therefore `TooShortForLength`, not
`MessageTooLarge`. The model follows the code (`TlsTables.Length0x4210Accepted`). The
smallest rejected length is 0x4800.

## Model

| member | source | states |
|---|---|---|
| EnumBuilder.GetUint | rustls/src/msgs/macros.rs:22-28 | `get_u8`/`get_u16` yields a value of the backing integer type (below 2^8 or 2^16). |
| EnumBuilder.Lookup | rustls/src/msgs/macros.rs:61-64 | The arms of `from` are tried in table order. The index found carries the constant x and no earlier arm matches. No index is found exactly when no arm has x. |
| EnumBuilder.FromUint | rustls/src/msgs/macros.rs:59-66 | `from` is total. `get_uint(from(x)) == x` for every x of the width, even when constants collide. The result is `Unknown(x)` exactly when no constant equals x. Otherwise it is the first arm in table order whose constant is x. |
| EnumBuilder.GetArray | rustls/src/msgs/macros.rs:32-34 | `get_array` has one byte for `@U8` and two for `@U16`. Read big-endian, those bytes are `get_uint(v)`. |
| EnumBuilder.AsStr | rustls/src/msgs/macros.rs:38-43 | `as_str` is `None` exactly for `Unknown`. For a named variant it is `Some` of that variant's identifier. |
| EnumBuilder.Encode | rustls/src/msgs/macros.rs:48-50 | `encode` appends exactly the width's bytes. The earlier buffer contents are unchanged, and the appended bytes are `get_array(v)`. |
| EnumBuilder.Read | rustls/src/msgs/macros.rs:52-57 | `read` fails exactly when fewer bytes than the width remain, and the error is `MissingData` carrying the enum's name. Otherwise it consumes exactly the width and yields `from` of the big-endian value, so an unrecognised value is never an error. |
| EnumBuilder.NormalizeFixesCanonical | rustls/src/msgs/macros.rs:59-66 | `from(get_uint(v)) == v` holds exactly when v is what `from` produces for its own integer. For a named variant, no earlier arm shares its constant. For `Unknown(x)`, x is no named constant. |
| EnumBuilder.NormalizeUnknown | rustls/src/msgs/macros.rs:59-66 | A hand-built `Unknown(x)` survives `from(get_uint(.))` exactly when x is no named constant. Otherwise it turns into a named variant. |
| EnumBuilder.NormalizeNamed | rustls/src/msgs/macros.rs:59-66 | With distinct constants, every named variant survives `from(get_uint(.))`. |
| EnumBuilder.NormalizeIdempotent | rustls/src/msgs/macros.rs:59-66 | Applying `from(get_uint(.))` twice is the same as applying it once. |
| EnumBuilder.ReadEncoded | rustls/src/msgs/macros.rs:48-57 | Round trip: `read` at the position where `encode` appended, whatever follows, yields `from(get_uint(v))` and consumes exactly the width. |
| Bytes.FromBigEndian | rustls/src/msgs/macros.rs:33 | The value of an n-byte big-endian string is below 256^n. |
| Bytes.ToBigEndian | rustls/src/msgs/macros.rs:33 | `to_be_bytes` gives n bytes whose big-endian value is x. |
| Bytes.ToFromBigEndian | rustls/src/msgs/macros.rs:33 | An n-byte string is the `to_be_bytes` encoding of its own value, so the encoding is unique. |
| Bytes.ToBigEndian2 | rustls/src/msgs/message/outbound_opaque.rs:69-70 | The two `to_be_bytes` of a `u16` are its high byte then its low byte. |
| Bytes.MaskHighByte | rustls/src/msgs/message/outbound_opaque.rs:166 | For a 16-bit v, `v & 0xff00` is v with its low byte cleared. |
| OutboundOpaque.LegacyVersionFamilyIsMask | rustls/src/msgs/message/outbound_opaque.rs:164-166 | The model's 3.x family test, "the high byte is 3", is exactly `(v & 0xff00) == 0x0300` on every 16-bit version. |
| OutboundOpaque.WithCapacity | rustls/src/msgs/message/outbound_opaque.rs:100-106 | `with_capacity` holds exactly the five zero prefix bytes and an empty payload, whatever the capacity. |
| OutboundOpaque.AsRef | rustls/src/msgs/message/outbound_opaque.rs:109-113 | The payload view is five bytes shorter than the buffer. |
| OutboundOpaque.AsRefLayout | rustls/src/msgs/message/outbound_opaque.rs:109-113 | The buffer is exactly the reserved prefix followed by the payload view. |
| OutboundOpaque.AsMut | rustls/src/msgs/message/outbound_opaque.rs:115-119 | Writes through `as_mut` replace the payload view, keep the buffer length and leave the prefix untouched. |
| OutboundOpaque.Extend | rustls/src/msgs/message/outbound_opaque.rs:121-125 | `extend` appends after the existing bytes. The old buffer, including the prefix, stays in front, and the payload view grows by exactly the items. |
| OutboundOpaque.FromSlice | rustls/src/msgs/message/outbound_opaque.rs:141-152 | `From<&[u8]>` (and `From<&[u8; N]>`) is five zero bytes followed by `content`. The payload view is `content`. |
| OutboundOpaque.Payload | rustls/src/msgs/message/outbound_opaque.rs:39-42 | `payload()` is five bytes shorter than the buffer; its contents are the `as_ref` view. |
| OutboundOpaque.PayloadMut | rustls/src/msgs/message/outbound_opaque.rs:44-47 | Writing the payload in place changes neither the content type, the version nor the prefix. Afterwards `payload()` is what was written. |
| OutboundOpaque.ReadHeader | rustls/src/msgs/message/outbound_opaque.rs:154-187 | An accepted header has a named content type, a named or 3.x version, a non-zero length unless the type is `ApplicationData`, and a length below `MAX_PAYLOAD`. Exactly five bytes are consumed. A header error is never `TooShortForLength`. `TooShortForHeader` occurs only when fewer than five bytes remain. |
| OutboundOpaque.ReadHeaderVerdict | rustls/src/msgs/message/outbound_opaque.rs:154-187 | The validator equals a decision list over the raw bytes, checked in this order: content type, then version, then length, then the empty-payload rule, then the oversize rule. The first failure is the error. A field the bytes cannot cover gives `TooShortForHeader`. An unknown content type gives `InvalidContentType`. An unnamed version whose high byte is not 3 gives `UnknownProtocolVersion`, and named versions always pass that check. A zero length for a non-`ApplicationData` type gives `InvalidEmptyPayload`. A length of 18432 or more gives `MessageTooLarge`. |
| OutboundOpaque.ReadTypeByte | rustls/src/msgs/message/outbound_opaque.rs:157 | The content-type read decodes byte 0 with `from` and advances the cursor by one. |
| OutboundOpaque.ReadVersionBytes | rustls/src/msgs/message/outbound_opaque.rs:163 | The version read decodes bytes 1-2, big-endian, with `from`. |
| OutboundOpaque.ReadLengthBytes | rustls/src/msgs/message/outbound_opaque.rs:172 | The length read takes bytes 3-4, big-endian, and ends five bytes past the start. |
| OutboundOpaque.VersionRuleBytes | rustls/src/msgs/message/outbound_opaque.rs:164-170 | A decoded version is rejected exactly when it is `Unknown` and outside 0x03XX, i.e. no constant names it and its high byte is not 3. |
| OutboundOpaque.VerdictAccepted | rustls/src/msgs/message/outbound_opaque.rs:154-187 | Five bytes whose decoded triple passes every check are accepted as that triple. |
| OutboundOpaque.VerdictRejected | rustls/src/msgs/message/outbound_opaque.rs:154-187 | Five bytes whose decoded triple fails a check are rejected with one of the four protocol errors, never a `TooShort` kind. |
| OutboundOpaque.VerdictOfPrefix | rustls/src/msgs/message/outbound_opaque.rs:154-187 | Cutting an accepted header short yields `TooShortForHeader` below five bytes. From five bytes on, the verdict is unchanged. |
| OutboundOpaque.Read | rustls/src/msgs/message/outbound_opaque.rs:51-63 | A header error is returned unchanged. At any cursor position, the read succeeds exactly when the header is valid and at least `len` bytes follow it. It is `TooShortForLength` exactly when the header is valid and fewer than `len` bytes follow. On success the payload is the `len` bytes right after the header, in a zero-prefixed buffer, and the cursor moves past them. |
| OutboundOpaque.ReadRecord | rustls/src/msgs/message/outbound_opaque.rs:51-63 | A header that reads back, followed by `len` bytes, reads back as a whole record with those bytes as its payload. |
| OutboundOpaque.Encode | rustls/src/msgs/message/outbound_opaque.rs:65-72 | `encode` keeps the buffer length, 5 + the payload length. Byte 0 is the content type. Bytes 1-2 are the version, big-endian. Bytes 3-4 are the payload length modulo 2^16 (`as u16`), big-endian. Every byte from index 5 on is `payload()` unchanged. |
| OutboundOpaque.EncodedArrays | rustls/src/msgs/message/outbound_opaque.rs:68-69 | The stamped type byte and version bytes are exactly the enums' `get_array` encodings. |
| OutboundOpaque.EncodedType | rustls/src/msgs/message/outbound_opaque.rs:68 | Whatever follows the record, the first stamped byte decodes to `from(get_u8(typ))`. |
| OutboundOpaque.EncodedVersion | rustls/src/msgs/message/outbound_opaque.rs:69 | Whatever follows the record, the stamped version bytes decode to `from(get_u16(version))`. |
| OutboundOpaque.EncodedLength | rustls/src/msgs/message/outbound_opaque.rs:66-70 | The stamped length decodes to the payload length modulo 2^16. |
| OutboundOpaque.EncodedFields | rustls/src/msgs/message/outbound_opaque.rs:65-72 | The five stamped bytes decode field by field to the normalised type, the normalised version and the truncated length. |
| OutboundOpaque.EncodedPayload | rustls/src/msgs/message/outbound_opaque.rs:65-72 | Whatever follows the record, the bytes after the stamped header are the payload. |
| OutboundOpaque.EncodedVerdict | rustls/src/msgs/message/outbound_opaque.rs:65-72 | An encoded record whose stamped header passes validation is accepted as that header. |
| OutboundOpaque.EncodedHeaderRead | rustls/src/msgs/message/outbound_opaque.rs:154-187 | `read_opaque_message_header` of an encoded record whose header passes gives that header and consumes five bytes. |
| OutboundOpaque.ReadEncoded | rustls/src/msgs/message/outbound_opaque.rs:51-94 | Round trip: when the triple `encode` stamps passes validation, `read` of the encoded bytes, whatever follows, gives back the type and version up to `from(get_uint(.))` and the same payload. It consumes exactly the record, and the record is at most `MAX_WIRE_SIZE` bytes. |
| OutboundOpaque.ReadEncodedRejected | rustls/src/msgs/message/outbound_opaque.rs:51-72 | When the stamped triple fails validation, `read` of the encoded bytes fails with one of the four protocol errors, never a `TooShort` kind. |
| OutboundOpaque.ReadTruncated | rustls/src/msgs/message/outbound_opaque.rs:51-63 | A strict prefix of an accepted encoded record is `TooShortForHeader` below five bytes and `TooShortForLength` from five bytes on. These are the "wait for more data" errors. |
| TlsTables.HandshakeDecodes | rustls/src/msgs/macros.rs:59-66 | 0x16 decodes to `Handshake`. |
| TlsTables.ApplicationDataDecodes | rustls/src/msgs/macros.rs:59-66 | 0x17 decodes to `ApplicationData`. |
| TlsTables.Tls10Decodes | rustls/src/msgs/macros.rs:59-66 | 0x0301 decodes to `TLSv1_0`. |
| TlsTables.Sslv2Decodes | rustls/src/msgs/macros.rs:59-66 | 0x0200 decodes to `SSLv2`. |
| TlsTables.Version0x03ffDecodes | rustls/src/msgs/macros.rs:59-66 | 0x03ff is no named version and decodes to `Unknown(0x03ff)`. |
| TlsTables.ContentTypeZeroDecodes | rustls/src/msgs/macros.rs:59-66 | 0 is no named content type and decodes to `Unknown(0)`. |
| TlsTables.UnknownHandshakeNormalizes | rustls/src/msgs/macros.rs:59-66 | A hand-built `ContentType::Unknown(0x16)` becomes `Handshake` after `from(get_u8(.))`, and its `as_str` is then "Handshake". |
| TlsTables.EmptyHandshakeRejected | rustls/src/msgs/message/outbound_opaque.rs:174-179 | An empty handshake record is `InvalidEmptyPayload`. |
| TlsTables.EmptyApplicationDataAccepted | rustls/src/msgs/message/outbound_opaque.rs:174-179 | An empty application-data record reads as an empty payload and consumes the five header bytes. |
| TlsTables.Length0x4210Accepted | rustls/src/msgs/message/outbound_opaque.rs:181-186 | A declared length of 16912 passes the header checks. With no payload bytes after the header, the result is `TooShortForLength`. |
| TlsTables.Length0x47ffAccepted | rustls/src/msgs/message/outbound_opaque.rs:181-186 | 18431 is accepted: the bound is strict. |
| TlsTables.Length0x4800Rejected | rustls/src/msgs/message/outbound_opaque.rs:181-184 | 18432 (`MAX_PAYLOAD` itself) is `MessageTooLarge`. |
| TlsTables.ContentTypeZeroRejected | rustls/src/msgs/message/outbound_opaque.rs:157-161 | Content type 0 is `InvalidContentType`, before the version is looked at. |
| TlsTables.LoneContentTypeZeroRejected | rustls/src/msgs/message/outbound_opaque.rs:157-161 | A single unknown content-type byte is already `InvalidContentType`, not `TooShortForHeader`. |
| TlsTables.Version0x0701Rejected | rustls/src/msgs/message/outbound_opaque.rs:164-168 | The unnamed version 0x0701 is `UnknownProtocolVersion`. |
| TlsTables.Version0x03ffAccepted | rustls/src/msgs/message/outbound_opaque.rs:164-170 | The unnamed version 0x03ff is in the 3.x family and passes as `Unknown(0x03ff)`. |
| TlsTables.NamedSslv2Accepted | rustls/src/msgs/message/outbound_opaque.rs:164-170 | The named `SSLv2` (0x0200) is outside 0x03XX but passes, because the family check applies only to `Unknown` versions. |

## Left out

- `into_plain_message` and the `Payload`/`PlainMessage` types are left out. They are defined outside the modelled files, and the conversion is a field copy.
- `OutboundOpaqueMessage::new` is the datatype constructor and has no contract of its own.
- The `Deref`/`DerefMut` raw access to the inner `Vec` is left out. It could break the layout invariant, so `PrefixedPayload.Valid()` (at least five bytes) is required wherever the code relies on the prefix. In particular `encode` would panic on a shorter buffer.
- Vec capacity and allocation are left out: `with_capacity` only reserves space. So are the `Clone`/`Debug` derives, `#[non_exhaustive]` and the `macro_rules!` expansion itself. Only the generated behaviour is modelled.
- The encryption and decryption done through `payload_mut` are left out; `PayloadMut` takes the bytes written as a parameter. The handshake state machine and socket I/O are also left out.
- The `Reader` and the `u8`/`u16` codec implementations are not part of this model. `Codec` states their assumed behaviour: a big-endian read or `take` fails without consuming anything when too few bytes remain.
- The model does not say where the cursor is left after a header or length error. The code does not promise a position, so the error results carry no reader.
- The registered `ContentType` and `ProtocolVersion` tables are not part of this model. `TlsTables` is an example instance, and every general result takes the tables as a parameter.
- EnumBuilder.GetUint: the contract states only the range. What the value is for each variant is stated through `FromUint` (`get_uint(from(x)) == x`) and the `Normalize` lemmas.
- OutboundOpaque.Payload: the contract states only the length. Its contents are the `AsRef` view, whose layout is `AsRefLayout`.
- OutboundOpaque.AsRef: the contract states only the length. The layout (prefix followed by the view) is the separate lemma `AsRefLayout`.
- OutboundOpaque.Encode: states the `as u16` truncation of the length field as is. No constructor bounds the payload, so a payload of 65536 bytes or more gets a wrapped length. The round trip `ReadEncoded` requires the untruncated triple to pass validation, which implies a payload below `MAX_PAYLOAD`.

/**
 The outbound TLS record (TLSPlaintext / TLSCiphertext of section 5.1 of RFC 8446 and
 sections 6.2.1 and 6.2.3 of RFC 5246): its header validation on read, its buffer with a
 five-byte reserved prefix, and `encode`, which stamps the header into that prefix.
 */
module OutboundOpaque {
  import opened Wrappers
  import opened Bytes
  import Codec
  import opened EnumBuilder

  /** Largest payload plus one: 2^14 payload bytes and a 2048-byte allowance for ciphertext overhead. */
  const MAX_PAYLOAD: nat := 16384 + 2048

  /** Content type, version and length. */
  const HEADER_SIZE: nat := 1 + 2 + 2

  /** Maximum on-the-wire record size. */
  const MAX_WIRE_SIZE: nat := MAX_PAYLOAD + HEADER_SIZE

  /** The error kinds of a record read; the two `TooShort` kinds mean "wait for more bytes". */
  datatype MessageError =
    | TooShortForHeader
    | TooShortForLength
    | InvalidContentType
    | UnknownProtocolVersion
    | InvalidEmptyPayload
    | MessageTooLarge

  /**
   The two instantiations of the enum codec a record uses: `ContentType` (one byte), with the
   table index of its `ApplicationData` variant, and `ProtocolVersion` (two bytes).
   */
  datatype Tables = Tables(contentType: EnumSpec, applicationData: nat, version: EnumSpec) {
    predicate Valid() {
      && contentType.Valid() && contentType.width == U8
      && version.Valid() && version.width == U16
      && applicationData < |contentType.variants|
    }

    function ApplicationData(): WireEnum {
      Named(applicationData)
    }
  }

  // ---------------------------------------------------------------------------------------
  // PrefixedPayload: one buffer whose first HEADER_SIZE bytes are reserved for the header.
  // ---------------------------------------------------------------------------------------

  datatype PrefixedPayload = PrefixedPayload(bytes: seq<uint8>) {
    /** The layout invariant every constructor establishes and `encode` relies on. */
    predicate Valid() {
      |bytes| >= HEADER_SIZE
    }
  }

  /** `[0u8; HEADER_SIZE]`. */
  function ZeroPrefix(): seq<uint8> {
    seq(HEADER_SIZE, _ => 0)
  }

  /** `with_capacity`: the reserved prefix, zeroed, and no payload; the capacity only sizes an allocation. */
  function WithCapacity(capacity: nat): (p: PrefixedPayload)
    ensures p.Valid()
    ensures p.bytes == ZeroPrefix()
    ensures AsRef(p) == []
  {
    PrefixedPayload(ZeroPrefix())
  }

  /** `as_ref`: the payload view, every byte after the reserved prefix and nothing else. */
  function AsRef(p: PrefixedPayload): (s: seq<uint8>)
    requires p.Valid()
    ensures |s| + HEADER_SIZE == |p.bytes|
  {
    p.bytes[HEADER_SIZE..]
  }

  /** The buffer is exactly the reserved prefix followed by the payload view: no byte is in neither or both. */
  lemma AsRefLayout(p: PrefixedPayload)
    requires p.Valid()
    ensures p.bytes == p.bytes[..HEADER_SIZE] + AsRef(p)
  {
  }

  /**
   `as_mut`, with the caller's writes through the returned slice given as `s`: the slice has
   the payload's length, the payload becomes `s` and the prefix is not touched.
   */
  function AsMut(p: PrefixedPayload, s: seq<uint8>): (q: PrefixedPayload)
    requires p.Valid() && |s| == |AsRef(p)|
    ensures q.Valid() && |q.bytes| == |p.bytes|
    ensures q.bytes[..HEADER_SIZE] == p.bytes[..HEADER_SIZE]
    ensures AsRef(q) == s
  {
    PrefixedPayload(p.bytes[..HEADER_SIZE] + s)
  }

  /** `extend`: appends after the existing bytes, so the prefix and the old payload stay in front. */
  function Extend(p: PrefixedPayload, items: seq<uint8>): (q: PrefixedPayload)
    requires p.Valid()
    ensures q.Valid() && |q.bytes| == |p.bytes| + |items|
    ensures q.bytes[..|p.bytes|] == p.bytes
    ensures q.bytes[..HEADER_SIZE] == p.bytes[..HEADER_SIZE]
    ensures AsRef(q) == AsRef(p) + items
  {
    PrefixedPayload(p.bytes + items)
  }

  /** `From<&[u8]>` (and `From<&[u8; N]>`): a zeroed prefix followed by a copy of `content`. */
  function FromSlice(content: seq<uint8>): (p: PrefixedPayload)
    ensures p.Valid()
    ensures p.bytes[..HEADER_SIZE] == ZeroPrefix()
    ensures AsRef(p) == content
  {
    PrefixedPayload(ZeroPrefix() + content)
  }

  // ---------------------------------------------------------------------------------------
  // OutboundOpaqueMessage
  // ---------------------------------------------------------------------------------------

  datatype OutboundOpaqueMessage = OutboundOpaqueMessage(typ: WireEnum, version: WireEnum, payload: PrefixedPayload)

  /** What the Rust types guarantee of a message: fields of the two enums and a valid buffer. */
  predicate WfMessage(t: Tables, m: OutboundOpaqueMessage) {
    && Wf(t.contentType, m.typ)
    && Wf(t.version, m.version)
    && m.payload.Valid()
  }

  /** `payload()`: the payload view of the buffer. */
  function Payload(m: OutboundOpaqueMessage): (s: seq<uint8>)
    requires m.payload.Valid()
    ensures |s| + HEADER_SIZE == |m.payload.bytes|
  {
    AsRef(m.payload)
  }

  /** `payload_mut()`, with the caller's in-place writes given as `s` (for example a decryption). */
  function PayloadMut(m: OutboundOpaqueMessage, s: seq<uint8>): (m': OutboundOpaqueMessage)
    requires m.payload.Valid() && |s| == |Payload(m)|
    ensures m'.typ == m.typ && m'.version == m.version
    ensures m'.payload.Valid() && Payload(m') == s
    ensures m'.payload.bytes[..HEADER_SIZE] == m.payload.bytes[..HEADER_SIZE]
  {
    m.(payload := AsMut(m.payload, s))
  }

  // ---------------------------------------------------------------------------------------
  // Header validation and read
  // ---------------------------------------------------------------------------------------

  /** The validated header triple. */
  datatype Header = Header(typ: WireEnum, version: WireEnum, len: nat)

  /**
   `(v & 0xff00) == 0x0300`: the version is in the 3.x family, i.e. its high byte is 3.
   Stated on the high byte; `LegacyVersionFamilyIsMask` shows it is the masked comparison.
   */
  predicate LegacyVersionFamily(v: nat) {
    v / 0x100 == 0x03
  }

  /** The high-byte test is exactly the source's bitwise test `v & 0xff00 == 0x0300` on a 16-bit version. */
  lemma LegacyVersionFamilyIsMask(v: uint16)
    ensures LegacyVersionFamily(v) <==> BitAnd(v, 0xff00) == 0x0300
  {
    MaskHighByte(v);
  }

  /** The checks the header validator applies to the decoded triple, all of which must pass. */
  predicate Accepted(t: Tables, h: Header) {
    && h.typ.Named?
    && (h.version.Unknown? ==> LegacyVersionFamily(h.version.raw))
    && (h.typ != t.ApplicationData() ==> h.len != 0)
    && h.len < MAX_PAYLOAD
  }

  /**
   `read_opaque_message_header`: reads the content type, rejects `Unknown` ones, reads the
   version, rejects `Unknown` ones outside 0x03XX, reads the length, rejects an empty payload
   unless the type is `ApplicationData`, and rejects a length of MAX_PAYLOAD or more. The first
   failure is the error; a read that runs out of bytes is `TooShortForHeader`.
   */
  function ReadHeader(t: Tables, r: Codec.Reader): (res: Result<(Header, Codec.Reader), MessageError>)
    requires t.Valid() && r.Valid()
    ensures res.Success? ==>
              && Accepted(t, res.value.0)
              && Wf(t.contentType, res.value.0.typ)
              && Wf(t.version, res.value.0.version)
              && res.value.1 == Codec.Reader(r.data, r.cursor + HEADER_SIZE)
    ensures res.Failure? ==> res.error != TooShortForLength
    ensures res == Failure(TooShortForHeader) ==> r.Remaining() < HEADER_SIZE
  {
    match EnumBuilder.Read(t.contentType, r)
    case Failure(_) => Failure(TooShortForHeader)
    case Success((typ, r1)) =>
      if typ.Unknown? then Failure(InvalidContentType)
      else
        match EnumBuilder.Read(t.version, r1)
        case Failure(_) => Failure(TooShortForHeader)
        case Success((version, r2)) =>
          if version.Unknown? && !LegacyVersionFamily(version.raw) then Failure(UnknownProtocolVersion)
          else
            match Codec.ReadUint(r2, 2)
            case None => Failure(TooShortForHeader)
            case Some((len, r3)) =>
              if typ != t.ApplicationData() && len == 0 then Failure(InvalidEmptyPayload)
              else if len >= MAX_PAYLOAD then Failure(MessageTooLarge)
              else Success((Header(typ, version, len), r3))
  }

  /**
   The header rules restated over the raw bytes ahead of the cursor, as a decision list in
   check order: byte 0 is the content type, bytes 1-2 the version (its high byte must be 3
   unless it is named), bytes 3-4 the length.
   */
  function HeaderVerdict(t: Tables, b: seq<uint8>): Result<Header, MessageError>
    requires t.Valid()
  {
    if |b| < 1 then Failure(TooShortForHeader)
    else if !t.contentType.IsNamed(b[0]) then Failure(InvalidContentType)
    else if |b| < 3 then Failure(TooShortForHeader)
    else if !t.version.IsNamed(b[1] as int * 256 + b[2]) && b[1] != 3 then Failure(UnknownProtocolVersion)
    else if |b| < 5 then Failure(TooShortForHeader)
    else
      var typ := FromUint(t.contentType, b[0]);
      var len := b[3] as int * 256 + b[4];
      if len == 0 && typ != t.ApplicationData() then Failure(InvalidEmptyPayload)
      else if len >= MAX_PAYLOAD then Failure(MessageTooLarge)
      else Success(Header(typ, FromUint(t.version, b[1] as int * 256 + b[2]), len))
  }

  /** The validator agrees with the byte-level decision list: same error, or same header and five bytes consumed. */
  lemma ReadHeaderVerdict(t: Tables, r: Codec.Reader)
    requires t.Valid() && r.Valid()
    ensures match HeaderVerdict(t, r.Rest())
            case Failure(e) => ReadHeader(t, r) == Failure(e)
            case Success(h) => ReadHeader(t, r) == Success((h, Codec.Reader(r.data, r.cursor + HEADER_SIZE)))
  {
    var b := r.Rest();
    if |b| < 1 {
      assert EnumBuilder.Read(t.contentType, r).Failure?;
      assert ReadHeader(t, r) == Failure(TooShortForHeader);
      return;
    }
    var r1 := Codec.Reader(r.data, r.cursor + 1);
    ReadTypeByte(t, r);
    var typ := FromUint(t.contentType, b[0]);
    if typ.Unknown? {
      assert ReadHeader(t, r) == Failure(InvalidContentType);
      return;
    }
    if |b| < 3 {
      assert EnumBuilder.Read(t.version, r1).Failure?;
      assert ReadHeader(t, r) == Failure(TooShortForHeader);
      return;
    }
    var r2 := Codec.Reader(r.data, r.cursor + 3);
    var v := b[1] as int * 256 + b[2];
    ReadVersionBytes(t, r);
    var version := FromUint(t.version, v);
    VersionRuleBytes(t, b[1], b[2]);
    if version.Unknown? && !LegacyVersionFamily(v) {
      assert ReadHeader(t, r) == Failure(UnknownProtocolVersion);
      return;
    }
    if |b| < 5 {
      assert Codec.ReadUint(r2, 2).None?;
      assert ReadHeader(t, r) == Failure(TooShortForHeader);
      return;
    }
    var len := b[3] as int * 256 + b[4];
    ReadLengthBytes(r);
    var r3 := Codec.Reader(r.data, r.cursor + HEADER_SIZE);
    if typ != t.ApplicationData() && len == 0 {
      assert ReadHeader(t, r) == Failure(InvalidEmptyPayload);
    } else if len >= MAX_PAYLOAD {
      assert ReadHeader(t, r) == Failure(MessageTooLarge);
    } else {
      assert ReadHeader(t, r) == Success((Header(typ, version, len), r3));
    }
  }

  /** The content-type read takes byte 0 ahead of the cursor. */
  lemma ReadTypeByte(t: Tables, r: Codec.Reader)
    requires t.Valid() && r.Valid() && r.Remaining() >= 1
    ensures EnumBuilder.Read(t.contentType, r)
            == Success((FromUint(t.contentType, r.Rest()[0]), Codec.Reader(r.data, r.cursor + 1)))
  {
    BigEndian1(r.data[r.cursor..r.cursor + 1]);
  }

  /** After the content type, the version read takes bytes 1-2 ahead of the original cursor. */
  lemma ReadVersionBytes(t: Tables, r: Codec.Reader)
    requires t.Valid() && r.Valid() && r.Remaining() >= 3
    ensures var b := r.Rest();
            EnumBuilder.Read(t.version, Codec.Reader(r.data, r.cursor + 1))
            == Success((FromUint(t.version, b[1] as int * 256 + b[2]), Codec.Reader(r.data, r.cursor + 3)))
  {
    var vb := r.data[r.cursor + 1..r.cursor + 3];
    assert vb[0] == r.Rest()[1] && vb[1] == r.Rest()[2];
    BigEndian2(vb);
  }

  /** After content type and version, the length read takes bytes 3-4 ahead of the original cursor. */
  lemma ReadLengthBytes(r: Codec.Reader)
    requires r.Valid() && r.Remaining() >= HEADER_SIZE
    ensures var b := r.Rest();
            Codec.ReadUint(Codec.Reader(r.data, r.cursor + 3), 2)
            == Some((b[3] as int * 256 + b[4], Codec.Reader(r.data, r.cursor + HEADER_SIZE)))
  {
    var lb := r.data[r.cursor + 3..r.cursor + 5];
    assert lb[0] == r.Rest()[3] && lb[1] == r.Rest()[4];
    BigEndian2(lb);
  }

  /** The masked version rule on a decoded version is the byte rule: unnamed and high byte not 3. */
  lemma VersionRuleBytes(t: Tables, hi: uint8, lo: uint8)
    requires t.Valid()
    ensures var v := hi as int * 256 + lo;
            FromUint(t.version, v).Unknown? && !LegacyVersionFamily(v) <==> !t.version.IsNamed(v) && hi != 3
  {
  }

  /** The triple the five header bytes at the front of `b` decode to. */
  function FieldsOf(t: Tables, b: seq<uint8>): Header
    requires t.Valid() && |b| >= HEADER_SIZE
  {
    Header(FromUint(t.contentType, b[0]), FromUint(t.version, b[1] as int * 256 + b[2]), b[3] as int * 256 + b[4])
  }

  /** Five header bytes whose triple passes every check are accepted as that triple. */
  lemma VerdictAccepted(t: Tables, b: seq<uint8>)
    requires t.Valid() && |b| >= HEADER_SIZE
    requires Accepted(t, FieldsOf(t, b))
    ensures HeaderVerdict(t, b) == Success(FieldsOf(t, b))
  {
  }

  /** Five header bytes whose triple fails a check are rejected as a protocol violation, not as too short. */
  lemma VerdictRejected(t: Tables, b: seq<uint8>)
    requires t.Valid() && |b| >= HEADER_SIZE
    requires !Accepted(t, FieldsOf(t, b))
    ensures HeaderVerdict(t, b).Failure?
    ensures HeaderVerdict(t, b).error in {InvalidContentType, UnknownProtocolVersion, InvalidEmptyPayload, MessageTooLarge}
  {
  }

  /**
   `OutboundOpaqueMessage::read`: a header error is returned as is; a valid header followed by
   fewer than `len` bytes is `TooShortForLength`; otherwise the message holds exactly the `len`
   bytes after the header, in a fresh prefixed buffer, and the cursor moves past them.
   */
  function Read(t: Tables, r: Codec.Reader): (res: Result<(OutboundOpaqueMessage, Codec.Reader), MessageError>)
    requires t.Valid() && r.Valid()
    ensures ReadHeader(t, r).Failure? ==> res == Failure(ReadHeader(t, r).error)
    ensures res == Failure(TooShortForLength) <==>
              ReadHeader(t, r).Success? && r.Remaining() < HEADER_SIZE + ReadHeader(t, r).value.0.len
    ensures res.Success? <==>
              ReadHeader(t, r).Success? && r.Remaining() >= HEADER_SIZE + ReadHeader(t, r).value.0.len
    ensures res.Success? ==>
              var h := ReadHeader(t, r).value.0;
              var (m, r') := res.value;
              && WfMessage(t, m)
              && m.typ == h.typ && m.version == h.version
              && m.payload.bytes[..HEADER_SIZE] == ZeroPrefix()
              && Payload(m) == r.data[r.cursor + HEADER_SIZE..r.cursor + HEADER_SIZE + h.len]
              && r' == Codec.Reader(r.data, r.cursor + HEADER_SIZE + h.len)
  {
    match ReadHeader(t, r)
    case Failure(e) => Failure(e)
    case Success((h, r1)) =>
      match Codec.Take(r1, h.len)
      case None => Failure(TooShortForLength)
      case Some((content, r2)) => Success((OutboundOpaqueMessage(h.typ, h.version, FromSlice(content)), r2))
  }

  // ---------------------------------------------------------------------------------------
  // Encode
  // ---------------------------------------------------------------------------------------

  /**
   `encode`: the buffer with its prefix overwritten by the header. Byte 0 is the content type,
   bytes 1-2 the version and bytes 3-4 the payload length truncated to 16 bits (`as u16`), both
   big-endian; the payload bytes follow unchanged and the length of the buffer is kept.
   */
  function Encode(t: Tables, m: OutboundOpaqueMessage): (out: seq<uint8>)
    requires t.Valid() && WfMessage(t, m)
    ensures |out| == |m.payload.bytes| == HEADER_SIZE + |Payload(m)|
    ensures out[0] == GetUint(t.contentType, m.typ)
    ensures out[1] as int * 256 + out[2] == GetUint(t.version, m.version)
    ensures out[3] as int * 256 + out[4] == |Payload(m)| % 0x1_0000
    ensures out[HEADER_SIZE..] == Payload(m)
  {
    var length: uint16 := |Payload(m)| % 0x1_0000;
    var version: uint16 := GetUint(t.version, m.version);
    [GetUint(t.contentType, m.typ), version / 0x100, version % 0x100, length / 0x100, length % 0x100]
      + m.payload.bytes[HEADER_SIZE..]
  }

  /** The stamped type and version bytes are exactly the enums' `get_array` encodings. */
  lemma EncodedArrays(t: Tables, m: OutboundOpaqueMessage)
    requires t.Valid() && WfMessage(t, m)
    ensures Encode(t, m)[..1] == GetArray(t.contentType, m.typ)
    ensures Encode(t, m)[1..3] == GetArray(t.version, m.version)
  {
    ToBigEndian1(GetUint(t.contentType, m.typ));
    ToBigEndian2(GetUint(t.version, m.version));
  }

  /** The triple a reader decodes from the header `encode` stamps: the fields normalized, the length truncated. */
  function EncodedHeader(t: Tables, m: OutboundOpaqueMessage): Header
    requires t.Valid() && WfMessage(t, m)
  {
    Header(Normalize(t.contentType, m.typ), Normalize(t.version, m.version), |Payload(m)| % 0x1_0000)
  }

  /** The five stamped bytes decode, field by field, to `EncodedHeader`, whatever follows them. */
  lemma EncodedFields(t: Tables, m: OutboundOpaqueMessage, tail: seq<uint8>)
    requires t.Valid() && WfMessage(t, m)
    ensures |Encode(t, m) + tail| >= HEADER_SIZE
    ensures FieldsOf(t, Encode(t, m) + tail) == EncodedHeader(t, m)
  {
    EncodedType(t, m, tail);
    EncodedVersion(t, m, tail);
    EncodedLength(t, m, tail);
  }

  /** The first byte of an encoded record decodes to the normalised content type. */
  lemma EncodedType(t: Tables, m: OutboundOpaqueMessage, tail: seq<uint8>)
    requires t.Valid() && WfMessage(t, m)
    ensures |Encode(t, m) + tail| >= HEADER_SIZE
    ensures FieldsOf(t, Encode(t, m) + tail).typ == EncodedHeader(t, m).typ
  {
    var out := Encode(t, m);
    assert (out + tail)[0] == out[0];
  }

  /** Bytes 1 and 2 of an encoded record decode to the normalised protocol version. */
  lemma EncodedVersion(t: Tables, m: OutboundOpaqueMessage, tail: seq<uint8>)
    requires t.Valid() && WfMessage(t, m)
    ensures |Encode(t, m) + tail| >= HEADER_SIZE
    ensures FieldsOf(t, Encode(t, m) + tail).version == EncodedHeader(t, m).version
  {
    var out := Encode(t, m);
    assert (out + tail)[1] == out[1] && (out + tail)[2] == out[2];
  }

  /** Bytes 3 and 4 of an encoded record hold the payload length modulo 2^16. */
  lemma EncodedLength(t: Tables, m: OutboundOpaqueMessage, tail: seq<uint8>)
    requires t.Valid() && WfMessage(t, m)
    ensures |Encode(t, m) + tail| >= HEADER_SIZE
    ensures FieldsOf(t, Encode(t, m) + tail).len == EncodedHeader(t, m).len
  {
    var out := Encode(t, m);
    assert (out + tail)[3] == out[3] && (out + tail)[4] == out[4];
  }

  /**
   Round trip: when the header `encode` stamps passes validation, `read` of the encoded bytes
   (followed by anything) gives back the same content type and version up to `from(get_uint(.))`
   and the same payload, consumes exactly the record, and the record fits in MAX_WIRE_SIZE.
   */
  lemma ReadEncoded(t: Tables, m: OutboundOpaqueMessage, tail: seq<uint8>)
    requires t.Valid() && WfMessage(t, m)
    requires Accepted(t, Header(Normalize(t.contentType, m.typ), Normalize(t.version, m.version), |Payload(m)|))
    ensures |Encode(t, m)| <= MAX_WIRE_SIZE
    ensures var out := Encode(t, m) + tail;
            Read(t, Codec.Init(out)) ==
              Success((OutboundOpaqueMessage(Normalize(t.contentType, m.typ), Normalize(t.version, m.version), FromSlice(Payload(m))),
                       Codec.Reader(out, |Encode(t, m)|)))
  {
    var enc := Encode(t, m);
    var out := enc + tail;
    var h := EncodedHeader(t, m);
    assert h.len == |Payload(m)|;
    EncodedHeaderRead(t, m, tail);
    EncodedPayload(t, m, tail);
    ReadRecord(t, out, h, Payload(m));
  }

  /** A header that reads back followed by its `len` bytes reads back as a whole record. */
  lemma ReadRecord(t: Tables, b: seq<uint8>, h: Header, p: seq<uint8>)
    requires t.Valid() && HEADER_SIZE + h.len <= |b|
    requires ReadHeader(t, Codec.Init(b)) == Success((h, Codec.Reader(b, HEADER_SIZE)))
    requires b[HEADER_SIZE..HEADER_SIZE + h.len] == p
    ensures Read(t, Codec.Init(b)) ==
              Success((OutboundOpaqueMessage(h.typ, h.version, FromSlice(p)), Codec.Reader(b, HEADER_SIZE + h.len)))
  {
  }

  /** The bytes after the stamped header are the payload, whatever follows the record. */
  lemma EncodedPayload(t: Tables, m: OutboundOpaqueMessage, tail: seq<uint8>)
    requires t.Valid() && WfMessage(t, m)
    ensures (Encode(t, m) + tail)[HEADER_SIZE..|Encode(t, m)|] == Payload(m)
  {
    PrefixSlice(Encode(t, m), tail, HEADER_SIZE);
  }

  /** Slicing inside the first part of a concatenation ignores the second part. */
  lemma PrefixSlice(a: seq<uint8>, b: seq<uint8>, i: nat)
    requires i <= |a|
    ensures (a + b)[i..|a|] == a[i..]
  {
    assert (a + b)[..|a|] == a;
  }

  /** The header of an encoded record whose stamped header passes validation reads back as that header. */
  lemma EncodedHeaderRead(t: Tables, m: OutboundOpaqueMessage, tail: seq<uint8>)
    requires t.Valid() && WfMessage(t, m)
    requires Accepted(t, EncodedHeader(t, m))
    ensures ReadHeader(t, Codec.Init(Encode(t, m) + tail)) ==
              Success((EncodedHeader(t, m), Codec.Reader(Encode(t, m) + tail, HEADER_SIZE)))
  {
    var out := Encode(t, m) + tail;
    EncodedFields(t, m, tail);
    VerdictAccepted(t, out);
    ReadHeaderVerdict(t, Codec.Init(out));
  }

  /**
   The converse: when the stamped header fails validation, `read` of the encoded bytes reports
   that header error, never `TooShortForLength`.
   */
  lemma ReadEncodedRejected(t: Tables, m: OutboundOpaqueMessage, tail: seq<uint8>)
    requires t.Valid() && WfMessage(t, m)
    requires !Accepted(t, EncodedHeader(t, m))
    ensures Read(t, Codec.Init(Encode(t, m) + tail)).Failure?
    ensures Read(t, Codec.Init(Encode(t, m) + tail)).error in
              {InvalidContentType, UnknownProtocolVersion, InvalidEmptyPayload, MessageTooLarge}
  {
    var out := Encode(t, m) + tail;
    EncodedFields(t, m, tail);
    VerdictRejected(t, out);
    ReadHeaderVerdict(t, Codec.Init(out));
  }

  /** Cutting an accepted header short only ever makes it `TooShortForHeader`; past five bytes nothing changes. */
  lemma VerdictOfPrefix(t: Tables, c: seq<uint8>, k: nat)
    requires t.Valid() && HeaderVerdict(t, c).Success? && k <= |c|
    ensures HeaderVerdict(t, c[..k]) == if k < HEADER_SIZE then Failure(TooShortForHeader) else HeaderVerdict(t, c)
  {
    var b := c[..k];
    if k >= 1 {
      assert b[0] == c[0];
    }
    if k >= 3 {
      assert b[1] == c[1] && b[2] == c[2];
    }
    if k >= HEADER_SIZE {
      assert b[3] == c[3] && b[4] == c[4];
    }
  }

  /**
   Truncation: a strict prefix of an accepted encoded record is `TooShortForHeader` while it is
   shorter than the header and `TooShortForLength` once the header is complete.
   */
  lemma ReadTruncated(t: Tables, m: OutboundOpaqueMessage, k: nat)
    requires t.Valid() && WfMessage(t, m)
    requires Accepted(t, Header(Normalize(t.contentType, m.typ), Normalize(t.version, m.version), |Payload(m)|))
    requires k < |Encode(t, m)|
    ensures Read(t, Codec.Init(Encode(t, m)[..k])) ==
              Failure(if k < HEADER_SIZE then TooShortForHeader else TooShortForLength)
  {
    var enc := Encode(t, m);
    var b := enc[..k];
    var h := EncodedHeader(t, m);
    assert h.len == |Payload(m)|;
    EncodedVerdict(t, m);
    VerdictOfPrefix(t, enc, k);
    ReadHeaderVerdict(t, Codec.Init(b));
  }

  /** An encoded record on its own whose stamped header passes validation is accepted as that header. */
  lemma EncodedVerdict(t: Tables, m: OutboundOpaqueMessage)
    requires t.Valid() && WfMessage(t, m)
    requires Accepted(t, EncodedHeader(t, m))
    ensures HeaderVerdict(t, Encode(t, m)) == Success(EncodedHeader(t, m))
  {
    var enc := Encode(t, m);
    EncodedFields(t, m, []);
    assert enc + [] == enc;
    VerdictAccepted(t, enc);
  }
}

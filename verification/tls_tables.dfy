/**
 An example instantiation of the record layer with the content types and protocol versions
 registered for TLS (section 5.1 of RFC 8446, section 6.2.1 of RFC 5246 and the DTLS versions
 of RFC 6347 and RFC 9147), and the header cases worked through on concrete bytes.
 */
module TlsTables {
  import opened Wrappers
  import opened Bytes
  import Codec
  import opened EnumBuilder
  import opened OutboundOpaque

  function ContentTypeSpec(): EnumSpec {
    EnumSpec("ContentType", U8, [
      Variant("ChangeCipherSpec", 0x14),
      Variant("Alert", 0x15),
      Variant("Handshake", 0x16),
      Variant("ApplicationData", 0x17),
      Variant("Heartbeat", 0x18)
    ])
  }

  const HANDSHAKE: nat := 2
  const APPLICATION_DATA: nat := 3

  function ProtocolVersionSpec(): EnumSpec {
    EnumSpec("ProtocolVersion", U16, [
      Variant("SSLv2", 0x0200),
      Variant("SSLv3", 0x0300),
      Variant("TLSv1_0", 0x0301),
      Variant("TLSv1_1", 0x0302),
      Variant("TLSv1_2", 0x0303),
      Variant("TLSv1_3", 0x0304),
      Variant("DTLSv1_0", 0xFEFF),
      Variant("DTLSv1_2", 0xFEFD),
      Variant("DTLSv1_3", 0xFEFC)
    ])
  }

  const SSLV2: nat := 0
  const TLSV1_0: nat := 2

  function Tls(): (t: Tables)
    ensures t.Valid()
    ensures t.contentType.Distinct() && t.version.Distinct()
  {
    Tables(ContentTypeSpec(), APPLICATION_DATA, ProtocolVersionSpec())
  }

  /** Handshake (0x16) is named, decodes to its own variant and is not ApplicationData. */
  lemma HandshakeDecodes()
    ensures ContentTypeSpec().IsNamed(0x16)
    ensures FromUint(ContentTypeSpec(), 0x16) == Named(HANDSHAKE)
  {
    NormalizeNamed(Tls().contentType, HANDSHAKE);
  }

  /** ApplicationData (0x17) is named and decodes to its own variant. */
  lemma ApplicationDataDecodes()
    ensures ContentTypeSpec().IsNamed(0x17)
    ensures FromUint(ContentTypeSpec(), 0x17) == Named(APPLICATION_DATA)
  {
    NormalizeNamed(Tls().contentType, APPLICATION_DATA);
  }

  /** TLSv1_0 (0x0301) is named and decodes to its own variant. */
  lemma Tls10Decodes()
    ensures ProtocolVersionSpec().IsNamed(0x0301)
    ensures FromUint(ProtocolVersionSpec(), 0x0301) == Named(TLSV1_0)
  {
    NormalizeNamed(Tls().version, TLSV1_0);
  }

  /** SSLv2 (0x0200) is named and decodes to its own variant. */
  lemma Sslv2Decodes()
    ensures ProtocolVersionSpec().IsNamed(0x0200)
    ensures FromUint(ProtocolVersionSpec(), 0x0200) == Named(SSLV2)
  {
    NormalizeNamed(Tls().version, SSLV2);
  }

  /** 0x03ff is no named version, so it decodes to `Unknown(0x03ff)`. */
  lemma Version0x03ffDecodes()
    ensures !ProtocolVersionSpec().IsNamed(0x03ff)
    ensures FromUint(ProtocolVersionSpec(), 0x03ff) == Unknown(0x03ff)
  {
  }

  /** A hand-built `ContentType::Unknown(0x16)` turns into `Handshake` on a round trip through the wire. */
  lemma UnknownHandshakeNormalizes()
    ensures Normalize(ContentTypeSpec(), Unknown(0x16)) == Named(HANDSHAKE)
    ensures AsStr(ContentTypeSpec(), Normalize(ContentTypeSpec(), Unknown(0x16))) == Some("Handshake")
  {
    HandshakeDecodes();
  }

  /** An empty handshake record is rejected. */
  lemma EmptyHandshakeRejected()
    ensures OutboundOpaque.Read(Tls(), Codec.Init([0x16, 0x03, 0x01, 0x00, 0x00])) == Failure(InvalidEmptyPayload)
  {
    var b: seq<uint8> := [0x16, 0x03, 0x01, 0x00, 0x00];
    HandshakeDecodes();
    Tls10Decodes();
    assert HeaderVerdict(Tls(), b) == Failure(InvalidEmptyPayload);
    ReadHeaderVerdict(Tls(), Codec.Init(b));
  }

  /** An empty application-data record is accepted, with an empty payload and the five header bytes consumed. */
  lemma EmptyApplicationDataAccepted()
    ensures var b: seq<uint8> := [0x17, 0x03, 0x01, 0x00, 0x00];
            OutboundOpaque.Read(Tls(), Codec.Init(b)) ==
              Success((OutboundOpaqueMessage(Named(APPLICATION_DATA), Named(TLSV1_0), FromSlice([])),
                       Codec.Reader(b, HEADER_SIZE)))
  {
    var b: seq<uint8> := [0x17, 0x03, 0x01, 0x00, 0x00];
    ApplicationDataDecodes();
    Tls10Decodes();
    assert HeaderVerdict(Tls(), b) == Success(Header(Named(APPLICATION_DATA), Named(TLSV1_0), 0));
    ReadHeaderVerdict(Tls(), Codec.Init(b));
  }

  /**
   A declared length of 0x4210 (16912) is below MAX_PAYLOAD (18432): the header is accepted
   and the five header bytes alone are `TooShortForLength`.
   */
  lemma Length0x4210Accepted()
    ensures ReadHeader(Tls(), Codec.Init([0x16, 0x03, 0x01, 0x42, 0x10])).Success?
    ensures ReadHeader(Tls(), Codec.Init([0x16, 0x03, 0x01, 0x42, 0x10])).value.0.len == 16912
    ensures OutboundOpaque.Read(Tls(), Codec.Init([0x16, 0x03, 0x01, 0x42, 0x10])) == Failure(TooShortForLength)
  {
    var b: seq<uint8> := [0x16, 0x03, 0x01, 0x42, 0x10];
    HandshakeDecodes();
    Tls10Decodes();
    assert HeaderVerdict(Tls(), b) == Success(Header(Named(HANDSHAKE), Named(TLSV1_0), 16912));
    ReadHeaderVerdict(Tls(), Codec.Init(b));
  }

  /** 0x47ff (18431) is the largest length the header accepts. */
  lemma Length0x47ffAccepted()
    ensures ReadHeader(Tls(), Codec.Init([0x16, 0x03, 0x01, 0x47, 0xff])).Success?
  {
    var b: seq<uint8> := [0x16, 0x03, 0x01, 0x47, 0xff];
    HandshakeDecodes();
    Tls10Decodes();
    assert HeaderVerdict(Tls(), b) == Success(Header(Named(HANDSHAKE), Named(TLSV1_0), 0x47ff));
    ReadHeaderVerdict(Tls(), Codec.Init(b));
  }

  /** 0x4800 (18432, MAX_PAYLOAD itself) is rejected. */
  lemma Length0x4800Rejected()
    ensures OutboundOpaque.Read(Tls(), Codec.Init([0x16, 0x03, 0x01, 0x48, 0x00])) == Failure(MessageTooLarge)
  {
    var b: seq<uint8> := [0x16, 0x03, 0x01, 0x48, 0x00];
    HandshakeDecodes();
    Tls10Decodes();
    assert HeaderVerdict(Tls(), b) == Failure(MessageTooLarge);
    ReadHeaderVerdict(Tls(), Codec.Init(b));
  }

  /** Content type 0 is no named content type, so it decodes to `Unknown(0)`. */
  lemma ContentTypeZeroDecodes()
    ensures !ContentTypeSpec().IsNamed(0)
    ensures FromUint(ContentTypeSpec(), 0) == Unknown(0)
  {
  }

  /** Content type 0 is not in the table and is rejected before the version is looked at. */
  lemma ContentTypeZeroRejected()
    ensures OutboundOpaque.Read(Tls(), Codec.Init([0x00, 0x03, 0x01, 0x00, 0x05])) == Failure(InvalidContentType)
  {
    var b: seq<uint8> := [0x00, 0x03, 0x01, 0x00, 0x05];
    ContentTypeZeroDecodes();
    assert HeaderVerdict(Tls(), b) == Failure(InvalidContentType);
    ReadHeaderVerdict(Tls(), Codec.Init(b));
  }

  /** A lone unknown content-type byte is already `InvalidContentType`, not `TooShortForHeader`. */
  lemma LoneContentTypeZeroRejected()
    ensures OutboundOpaque.Read(Tls(), Codec.Init([0x00])) == Failure(InvalidContentType)
  {
    var b: seq<uint8> := [0x00];
    ContentTypeZeroDecodes();
    assert HeaderVerdict(Tls(), b) == Failure(InvalidContentType);
    ReadHeaderVerdict(Tls(), Codec.Init(b));
  }

  /** Version 0x0701 is unnamed and outside 0x03XX, so it is rejected. */
  lemma Version0x0701Rejected()
    ensures OutboundOpaque.Read(Tls(), Codec.Init([0x16, 0x07, 0x01, 0x00, 0x05])) == Failure(UnknownProtocolVersion)
  {
    var b: seq<uint8> := [0x16, 0x07, 0x01, 0x00, 0x05];
    HandshakeDecodes();
    assert HeaderVerdict(Tls(), b) == Failure(UnknownProtocolVersion);
    ReadHeaderVerdict(Tls(), Codec.Init(b));
  }

  /** The unnamed version 0x03ff is in the 3.x family and is accepted as `Unknown(0x03ff)`. */
  lemma Version0x03ffAccepted()
    ensures ReadHeader(Tls(), Codec.Init([0x16, 0x03, 0xff, 0x00, 0x05])).Success?
    ensures ReadHeader(Tls(), Codec.Init([0x16, 0x03, 0xff, 0x00, 0x05])).value.0.version == Unknown(0x03ff)
  {
    var b: seq<uint8> := [0x16, 0x03, 0xff, 0x00, 0x05];
    HandshakeDecodes();
    Version0x03ffDecodes();
    assert HeaderVerdict(Tls(), b) == Success(Header(Named(HANDSHAKE), Unknown(0x03ff), 5));
    ReadHeaderVerdict(Tls(), Codec.Init(b));
  }

  /** The named SSLv2 (0x0200) is outside 0x03XX but passes, because only `Unknown` versions are checked. */
  lemma NamedSslv2Accepted()
    ensures ReadHeader(Tls(), Codec.Init([0x16, 0x02, 0x00, 0x00, 0x05])).Success?
    ensures ReadHeader(Tls(), Codec.Init([0x16, 0x02, 0x00, 0x00, 0x05])).value.0.version == Named(SSLV2)
  {
    var b: seq<uint8> := [0x16, 0x02, 0x00, 0x00, 0x05];
    HandshakeDecodes();
    Sslv2Decodes();
    assert HeaderVerdict(Tls(), b) == Success(Header(Named(HANDSHAKE), Named(SSLV2), 5));
    ReadHeaderVerdict(Tls(), Codec.Init(b));
  }
}

/**
 The data-to-be-signed of issuer and credential root envelopes.
 Sources: crates/credentials/src/envelope.rs, crates/protocol/src/envelope.rs.
 */
module RootPayload {
  import opened Machine
  import opened Positional
  import opened Protocol
  import opened FieldElement

  const KEY_IDENTIFIER_MAX_LEN: nat := 64

  /** "ZWA1ROOT" */
  const PAYLOAD_MAGIC: seq<byte> := [0x5A, 0x57, 0x41, 0x31, 0x52, 0x4F, 0x4F, 0x54]

  datatype Kind = Issuer | Credential
  {
    function Tag(): byte
    {
      if Issuer? then 1 else 2
    }
  }

  type KeyIdentifier = s: seq<byte> | 1 <= |s| <= KEY_IDENTIFIER_MAX_LEN witness [0]

  function NewKeyIdentifier(bytes: seq<byte>): Result<KeyIdentifier>
  {
    if bytes == [] then Err(InvalidRootEnvelope(MissingAuthorityIdentifier))
    else if |bytes| > KEY_IDENTIFIER_MAX_LEN then
      Err(InvalidRootEnvelope(IdentifierTooLong(|bytes|, KEY_IDENTIFIER_MAX_LEN)))
    else Ok(bytes)
  }

  datatype RawMetadata = RootMetadata(version: u64, validFrom: u64, expiresAt: u64)

  /** A supported version and a window that is not inverted. */
  type RootMetadata = m: RawMetadata | 1 <= m.version && m.validFrom <= m.expiresAt witness RootMetadata(1, 0, 0)

  function NewRootMetadata(version: u64, validFrom: u64, expiresAt: u64): Result<RootMetadata>
  {
    if version < 1 then Err(UnsupportedVersion(version))
    else if validFrom > expiresAt then Err(InvertedWindow)
    else Ok(RootMetadata(version, validFrom, expiresAt))
  }

  datatype Payload = Payload(kind: Kind, root: FieldElement, identifier: KeyIdentifier, metadata: RootMetadata)

  // ---------- encoding ----------

  function Layout(magic: seq<byte>, kind: byte, version: seq<byte>, validFrom: seq<byte>, expiresAt: seq<byte>,
                  idLen: byte, identifier: seq<byte>, root: seq<byte>): seq<byte>
  {
    magic + [kind] + version + validFrom + expiresAt + [idLen] + identifier + root
  }

  function Encode(p: Payload): seq<byte>
  {
    Layout(PAYLOAD_MAGIC, p.kind.Tag(), BeBytes(p.metadata.version, 8), BeBytes(p.metadata.validFrom, 8),
           BeBytes(p.metadata.expiresAt, 8), |p.identifier|, p.identifier, p.root)
  }

  /** Appends the fields one by one, whatever they are; the length is narrowed to one byte. */
  method EncodePayload(kind: byte, version: u64, validFrom: u64, expiresAt: u64, identifier: seq<byte>,
                       root: FieldElement)
    returns (out: seq<byte>)
    ensures out == Layout(PAYLOAD_MAGIC, kind, BeBytes(version, 8), BeBytes(validFrom, 8), BeBytes(expiresAt, 8),
                          |identifier| % 256, identifier, root)
  {
    var idLen := |identifier| % 256;
    out := PAYLOAD_MAGIC;
    out := out + [kind];
    out := out + BeBytes(version, 8);
    out := out + BeBytes(validFrom, 8);
    out := out + BeBytes(expiresAt, 8);
    out := out + [idLen];
    out := out + identifier;
    out := out + root;
  }

  lemma LengthByte(identifier: KeyIdentifier)
    ensures |identifier| % 256 == |identifier|
  {
  }

  /** A key identifier is short enough for the narrowing to lose nothing, so the bytes decode to the payload. */
  method CanonicalBytes(p: Payload) returns (out: seq<byte>)
    ensures out == Encode(p)
    ensures Decode(out) == Some((p, []))
  {
    LengthByte(p.identifier);
    out := EncodePayload(p.kind.Tag(), p.metadata.version, p.metadata.validFrom, p.metadata.expiresAt, p.identifier,
                         p.root);
    DecodesExactly(p);
  }

  lemma DecodesExactly(p: Payload)
    ensures Decode(Encode(p)) == Some((p, []))
  {
    DecodeEncode(p, []);
    assert Encode(p) + [] == Encode(p);
  }

  // ---------- a decoder, to state what the encoding preserves ----------

  function KindOf(tag: byte): Option<Kind>
  {
    if tag == 1 then Some(Issuer) else if tag == 2 then Some(Credential) else None
  }

  /** Reads one payload from the front of a byte string and returns the rest. */
  function Decode(b: seq<byte>): Option<(Payload, seq<byte>)>
  {
    if |b| < 34 || b[..8] != PAYLOAD_MAGIC then None
    else
      var kind, n := KindOf(b[8]), b[33];
      if kind.None? || |b| < 34 + n + FIELD_BYTES then None
      else
        var identifier := NewKeyIdentifier(b[34..34 + n]);
        var metadata := NewRootMetadata(Word(b[9..17]), Word(b[17..25]), Word(b[25..33]));
        var root := FromBeSlice(b[34 + n..34 + n + FIELD_BYTES]);
        if identifier.Err? || metadata.Err? || root.Err? then None
        else Some((Payload(kind.value, root.value, identifier.value, metadata.value), b[34 + n + FIELD_BYTES..]))
  }

  /** An eight-byte big-endian field. */
  function Word(b: seq<byte>): u64
    requires |b| == 8
  {
    BeBound(b, 256);
    PowersOf256();
    BeVal(b, 256)
  }

  lemma WordRoundTrip(v: u64)
    ensures Word(BeBytes(v, 8)) == v
  {
    PowersOf256();
    BeBytesValue(v, 8);
  }

  /** Where the fields of an encoding sit. */
  lemma Positions(p: Payload, tail: seq<byte>)
    ensures var b, n := Encode(p) + tail, |p.identifier|;
      && |b| == 34 + n + FIELD_BYTES + |tail|
      && b[..8] == PAYLOAD_MAGIC && b[8] == p.kind.Tag() && b[33] == n
      && b[9..17] == BeBytes(p.metadata.version, 8) && b[17..25] == BeBytes(p.metadata.validFrom, 8)
      && b[25..33] == BeBytes(p.metadata.expiresAt, 8)
      && b[34..34 + n] == p.identifier && b[34 + n..34 + n + FIELD_BYTES] == p.root
      && b[34 + n + FIELD_BYTES..] == tail
  {
  }

  /** The signed bytes, position by position. */
  lemma Wire(p: Payload)
    ensures var b, n := Encode(p), |p.identifier|;
      && |b| == 66 + n
      && (forall k :: 0 <= k < 8 ==> b[k] == "ZWA1ROOT"[k] as int)
      && b[8] == (if p.kind.Issuer? then 1 else 2)
      && BeVal(b[9..17], 256) == p.metadata.version
      && BeVal(b[17..25], 256) == p.metadata.validFrom
      && BeVal(b[25..33], 256) == p.metadata.expiresAt
      && b[33] == n && b[34..34 + n] == p.identifier
      && BeVal(b[34 + n..], 256) == Value(p.root)
  {
    var b, n := Encode(p), |p.identifier|;
    Positions(p, []);
    assert b + [] == b;
    assert b[34 + n..34 + n + FIELD_BYTES] == b[34 + n..];
    WordRoundTrip(p.metadata.version);
    WordRoundTrip(p.metadata.validFrom);
    WordRoundTrip(p.metadata.expiresAt);
    Magic(b);
  }

  lemma Magic(b: seq<byte>)
    requires |b| >= 8 && b[..8] == PAYLOAD_MAGIC
    ensures forall k :: 0 <= k < 8 ==> b[k] == "ZWA1ROOT"[k] as int
  {
    forall k | 0 <= k < 8
      ensures b[k] == "ZWA1ROOT"[k] as int
    {
      assert b[k] == b[..8][k];
    }
  }

  /** An identifier is accepted exactly with 1 to 64 bytes; the errors tell the two failures apart. */
  lemma IdentifierExactly(bytes: seq<byte>)
    ensures 1 <= |bytes| <= 64 ==> NewKeyIdentifier(bytes) == Ok(bytes)
    ensures |bytes| == 0 ==> NewKeyIdentifier(bytes) == Err(InvalidRootEnvelope(MissingAuthorityIdentifier))
    ensures |bytes| > 64 ==> NewKeyIdentifier(bytes) == Err(InvalidRootEnvelope(IdentifierTooLong(|bytes|, 64)))
  {
  }

  /** Metadata is accepted exactly with a version from 1 on and a window that is not inverted. */
  lemma MetadataExactly(version: u64, validFrom: u64, expiresAt: u64)
    ensures var r := NewRootMetadata(version, validFrom, expiresAt);
      if version == 0 then r == Err(UnsupportedVersion(0))
      else if validFrom > expiresAt then r == Err(InvertedWindow)
      else r.Ok? && r.value.version == version && r.value.validFrom == validFrom && r.value.expiresAt == expiresAt
  {
  }

  /** Decoding an encoding, whatever follows it, gives back the payload and what followed. */
  lemma DecodeEncode(p: Payload, tail: seq<byte>)
    ensures Decode(Encode(p) + tail) == Some((p, tail))
  {
    Positions(p, tail);
    WordRoundTrip(p.metadata.version);
    WordRoundTrip(p.metadata.validFrom);
    WordRoundTrip(p.metadata.expiresAt);
    FromBeSliceExact(p.root, Value(p.root));
    ValueIsBijective(p.root, Value(p.root));
  }

  /** Only encodings decode: a payload has one canonical byte form. */
  lemma EncodeDecode(b: seq<byte>)
    requires Decode(b).Some?
    ensures Encode(Decode(b).value.0) + Decode(b).value.1 == b
  {
    DecodedFields(b);
    Fields(b, b[33]);
  }

  /** Each decoded field is the slice it was read from. */
  lemma DecodedFields(b: seq<byte>)
    requires Decode(b).Some?
    ensures var p, tail, n := Decode(b).value.0, Decode(b).value.1, b[33];
      && |b| >= 34 + n + FIELD_BYTES && b[..8] == PAYLOAD_MAGIC && p.kind.Tag() == b[8] && |p.identifier| == n
      && BeBytes(p.metadata.version, 8) == b[9..17] && BeBytes(p.metadata.validFrom, 8) == b[17..25]
      && BeBytes(p.metadata.expiresAt, 8) == b[25..33]
      && p.identifier == b[34..34 + n] && p.root == b[34 + n..34 + n + 32] && tail == b[34 + n + 32..]
  {
    BytesOfWord(b[9..17]);
    BytesOfWord(b[17..25]);
    BytesOfWord(b[25..33]);
  }

  lemma BytesOfWord(b: seq<byte>)
    requires |b| == 8
    ensures BeBytes(Word(b), 8) == b
  {
    BeValueBytes(b);
  }

  lemma Fields(b: seq<byte>, n: nat)
    requires 34 + n + 32 <= |b|
    ensures b == Layout(b[..8], b[8], b[9..17], b[17..25], b[25..33], b[33], b[34..34 + n], b[34 + n..34 + n + 32]) +
      b[34 + n + 32..]
  {
  }

  /**
   Equal bytes mean equal kind, version, window, identifier and root, and no payload is a proper
   prefix of another: signed byte strings cannot be reinterpreted or extended.
   */
  lemma UniquelyDecodable(p: Payload, q: Payload, s: seq<byte>, t: seq<byte>)
    ensures Encode(p) + s == Encode(q) + t <==> p == q && s == t
    ensures Encode(p) <= Encode(q) <==> p == q
  {
    if Encode(p) + s == Encode(q) + t {
      DecodeEncode(p, s);
      DecodeEncode(q, t);
    }
    if Encode(p) <= Encode(q) {
      var rest := Encode(q)[|Encode(p)|..];
      assert Encode(p) + rest == Encode(q) + [];
      DecodeEncode(p, rest);
      DecodeEncode(q, []);
    }
  }
}

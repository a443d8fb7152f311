/** Endorsement and revocation payloads: what is signed, what is stored, what is read back. */
module Endorsement {
  import opened Prelude
  import opened Cbor
  import opened Ledger

  const PAYLOAD_VERSION: Uint64 := 1

  const PROPOSAL_DOMAIN: Bytes := Ascii("attribution-chain:endorsement-proposal:v1")
  const ACCEPTANCE_DOMAIN: Bytes := Ascii("attribution-chain:endorsement-acceptance:v1")
  const REVOCATION_DOMAIN: Bytes := Ascii("attribution-chain:endorsement-revocation:v1")

  const MAX_TOPIC_LENGTH: nat := 128
  const MAX_CLAIM_BODY_BYTES: nat := 4096
  const MAX_REASON_LENGTH: nat := 256

  /** An ECDSA public key as the uncompressed bytes it writes; empty stands for nil. A key on a
      NIST curve takes at most 133 bytes; nothing says which curve it is on. */
  type PublicKey = b: Bytes | |b| <= 133

  /** The cryptography, left uninterpreted. */
  datatype Crypto = Crypto(
    hash: Hash,
    onCurve: Bytes -> bool,
    verify: (PublicKey, Digest, Bytes) -> bool)

  predicate IsP256(c: Crypto, b: Bytes) {
    |b| == 65 && b[0] == 0x04 && c.onCurve(b)
  }

  function KeyItem(key: PublicKey): Item {
    if key == [] then Null else BStr(key)
  }

  function DecodePublicKey(c: Crypto, item: Item): (r: Result<PublicKey>) {
    if item.BStr? && IsP256(c, item.bytes) then Ok(item.bytes) else Err(InvalidPublicKey)
  }

  // ----- accepted endorsements -----

  datatype Accepted = Accepted(
    proposer: PublicKey,
    subject: PublicKey,
    topic: Bytes,
    claim: Bytes,
    proposedAt: Uint64,
    proposerSignature: Bytes,
    acceptedAt: Uint64,
    subjectSignature: Bytes)

  const ACCEPTED_SCHEMA: seq<Kind> :=
    [UIntField, BytesField, BytesField, TextField, BytesField, UIntField, BytesField, UIntField, BytesField]

  function AcceptedFields(p: Accepted): (fields: seq<Item>)
    ensures |fields| == 9
  {
    [UInt(PAYLOAD_VERSION), KeyItem(p.proposer), KeyItem(p.subject), TStr(p.topic), BStr(p.claim),
     UInt(p.proposedAt), BStr(p.proposerSignature), UInt(p.acceptedAt), BStr(p.subjectSignature)]
  }

  function EncodeAccepted(p: Accepted): Bytes {
    EncodeMap(Keyed(AcceptedFields(p)))
  }

  predicate AcceptedInBounds(p: Accepted) {
    && p.proposer != [] && p.subject != []
    && 1 <= |p.topic| <= MAX_TOPIC_LENGTH && 1 <= |p.claim| <= MAX_CLAIM_BODY_BYTES
    && ValidSignatureLength(p.proposerSignature) && ValidSignatureLength(p.subjectSignature)
  }

  function AcceptedFromWire(c: Crypto, w: seq<Item>): (r: Result<Accepted>)
    requires Fits(w, ACCEPTED_SCHEMA)
  {
    if w[0].n != PAYLOAD_VERSION then Err(UnsupportedVersion)
    else
      var proposer :- DecodePublicKey(c, w[1]);
      var subject :- DecodePublicKey(c, w[2]);
      var claim := if w[4].BStr? then w[4].bytes else [];
      var proposerSignature := if w[6].BStr? then w[6].bytes else [];
      var subjectSignature := if w[8].BStr? then w[8].bytes else [];
      var p := Accepted(proposer, subject, w[3].text, claim, w[5].n, proposerSignature, w[7].n, subjectSignature);
      if AcceptedInBounds(p) then Ok(p) else Err(FieldOutOfBounds)
  }

  function DecodeAccepted(c: Crypto, encoded: Bytes): (r: Result<Accepted>) {
    match Unmarshal(encoded, ACCEPTED_SCHEMA)
    case None => Err(MalformedCbor)
    case Some(w) => AcceptedFromWire(c, w)
  }

  function ProposalFields(p: Accepted): (fields: seq<Item>)
    ensures |fields| == 6
  {
    [UInt(PAYLOAD_VERSION), KeyItem(p.proposer), KeyItem(p.subject), TStr(p.topic), BStr(p.claim), UInt(p.proposedAt)]
  }

  function AcceptanceFields(proposal: Digest, acceptedAt: Uint64): (fields: seq<Item>)
    ensures |fields| == 3
  {
    [UInt(PAYLOAD_VERSION), BStr(proposal), UInt(acceptedAt)]
  }

  function ProposalDigest(c: Crypto, p: Accepted): Digest {
    DomainDigest(c.hash, PROPOSAL_DOMAIN, EncodeMap(Keyed(ProposalFields(p))))
  }

  function AcceptanceDigest(c: Crypto, p: Accepted): Digest {
    DomainDigest(c.hash, ACCEPTANCE_DOMAIN, EncodeMap(Keyed(AcceptanceFields(ProposalDigest(c, p), p.acceptedAt))))
  }

  /** `Verify`: the bounds of a proposal, then the proposer's signature on it, then the subject's on
      the acceptance of its digest. */
  predicate VerifyAccepted(c: Crypto, p: Accepted) {
    && p.proposer != [] && p.subject != []
    && 1 <= |p.topic| <= MAX_TOPIC_LENGTH && 1 <= |p.claim| <= MAX_CLAIM_BODY_BYTES
    && ValidSignatureLength(p.proposerSignature)
    && c.verify(p.proposer, ProposalDigest(c, p), p.proposerSignature)
    && ValidSignatureLength(p.subjectSignature)
    && c.verify(p.subject, AcceptanceDigest(c, p), p.subjectSignature)
  }

  /** What a stored endorsement needs, beyond its signatures, to be readable again. */
  predicate AcceptedReadable(c: Crypto, p: Accepted) {
    IsP256(c, p.proposer) && IsP256(c, p.subject) && ValidUtf8(p.topic)
  }

  lemma AcceptedFieldsFit(p: Accepted)
    requires AcceptedInBounds(p)
    ensures Fits(AcceptedFields(p), ACCEPTED_SCHEMA)
    ensures forall i :: 0 <= i < 9 ==> Sized(AcceptedFields(p)[i])
    ensures AllDecodable(AcceptedFields(p)) <==> ValidUtf8(p.topic)
  {
    assert AcceptedFields(p)[3] == TStr(p.topic);
  }

  lemma AcceptedFromFields(c: Crypto, p: Accepted)
    requires AcceptedInBounds(p) && Fits(AcceptedFields(p), ACCEPTED_SCHEMA)
    ensures AcceptedFromWire(c, AcceptedFields(p)) ==
            if IsP256(c, p.proposer) && IsP256(c, p.subject) then Ok(p) else Err(InvalidPublicKey)
  {
  }

  /** Decoding an encoded, verified endorsement gives it back exactly when its keys are P-256
      points and its topic is UTF-8; `Verify` and `Encode` check neither. */
  lemma AcceptedRoundTrip(c: Crypto, p: Accepted)
    requires AcceptedInBounds(p)
    ensures if AcceptedReadable(c, p) then DecodeAccepted(c, EncodeAccepted(p)) == Ok(p)
            else DecodeAccepted(c, EncodeAccepted(p)).Err?
  {
    AcceptedFieldsFit(p);
    UnmarshalEncoded(AcceptedFields(p), ACCEPTED_SCHEMA);
    AcceptedFromFields(c, p);
  }

  lemma AcceptedWireExact(c: Crypto, w: seq<Item>, p: Accepted)
    requires Fits(w, ACCEPTED_SCHEMA) && AcceptedFromWire(c, w) == Ok(p)
    ensures w == AcceptedFields(p) && AcceptedInBounds(p)
  {
    assert OfKind(w[0], UIntField) && OfKind(w[3], TextField) && OfKind(w[5], UIntField) && OfKind(w[7], UIntField);
    assert OfKind(w[4], BytesField) && OfKind(w[6], BytesField) && OfKind(w[8], BytesField);
  }

  /** What the decoder returns, said without it: the fields on the wire, with both keys P-256 points
      and every length in bounds. */
  lemma DecodeAcceptedExact(c: Crypto, encoded: Bytes, p: Accepted)
    ensures DecodeAccepted(c, encoded) == Ok(p) <==>
            && Unmarshal(encoded, ACCEPTED_SCHEMA) == Some(AcceptedFields(p))
            && |p.proposer| == 65 && p.proposer[0] == 0x04 && c.onCurve(p.proposer)
            && |p.subject| == 65 && p.subject[0] == 0x04 && c.onCurve(p.subject)
            && 1 <= |p.topic| <= 128 && 1 <= |p.claim| <= 4096
            && 8 <= |p.proposerSignature| <= 72 && 8 <= |p.subjectSignature| <= 72
  {
    if DecodeAccepted(c, encoded) == Ok(p) {
      AcceptedWireExact(c, Unmarshal(encoded, ACCEPTED_SCHEMA).value, p);
    }
    if Unmarshal(encoded, ACCEPTED_SCHEMA) == Some(AcceptedFields(p)) && AcceptedInBounds(p) {
      AcceptedFieldsFit(p);
      AcceptedFromFields(c, p);
    }
  }

  /** The decoder does not insist on canonical bytes: encoding what it returned gives the bytes
      back exactly when the ledger's strict decoder would have accepted them. */
  lemma AcceptedReencodes(c: Crypto, encoded: Bytes, p: Accepted)
    requires DecodeAccepted(c, encoded) == Ok(p)
    ensures EncodeAccepted(p) == encoded <==> DecodeCanonical(encoded, |encoded|, ACCEPTED_SCHEMA).Ok?
  {
    var w := Unmarshal(encoded, ACCEPTED_SCHEMA).value;
    AcceptedWireExact(c, w, p);
    UnmarshalReencodes(encoded, ACCEPTED_SCHEMA, w);
  }

  /** So every readable endorsement has a second, different encoding that decodes to it. */
  lemma AcceptedNotUnique(c: Crypto, p: Accepted)
    requires AcceptedInBounds(p) && AcceptedReadable(c, p)
    ensures LongForm(AcceptedFields(p)) != EncodeAccepted(p) && DecodeAccepted(c, LongForm(AcceptedFields(p))) == Ok(p)
  {
    AcceptedFieldsFit(p);
    LongFormDecodes(AcceptedFields(p), ACCEPTED_SCHEMA);
    AcceptedFromFields(c, p);
  }

  // ----- a second encoding -----

  /** The same struct with its version written in two bytes. */
  function LongForm(fields: seq<Item>): Bytes
    requires 1 <= |fields| <= MAX_MAP_PAIRS
  {
    EncodeHead(5, |fields|) + LongEntries(Keyed(fields))
  }

  function LongEntries(es: seq<Entry>): Bytes
    requires es != []
  {
    EncodeHead(0, 0) + ([0x18, 0x01] + EncodeEntries(es[1..]))
  }

  lemma LongFormDecodes(fields: seq<Item>, schema: seq<Kind>)
    requires 1 <= |fields| <= MAX_MAP_PAIRS && Fits(fields, schema) && AllDecodable(fields) && fields[0] == UInt(1)
    ensures LongForm(fields) != EncodeMap(Keyed(fields)) && Unmarshal(LongForm(fields), schema) == Some(fields)
  {
    var es := Keyed(fields);
    LongFormParses(es);
    LongFormDiffers(es);
    DecodeKeyed(fields, schema);
  }

  lemma LongFormDiffers(es: seq<Entry>)
    requires 1 <= |es| <= MAX_MAP_PAIRS && es[0] == Entry(0, UInt(1))
    ensures EncodeHead(5, |es|) + LongEntries(es) != EncodeMap(es)
  {
    assert |EncodeMap(es)| == 1 + (1 + 1 + |EncodeEntries(es[1..])|);
  }

  lemma LongFormParses(es: seq<Entry>)
    requires 1 <= |es| <= MAX_MAP_PAIRS && KeysAscend(es) && es[0] == Entry(0, UInt(1))
    requires forall i :: 0 <= i < |es| ==> Decodable(es[i].item)
    ensures ParseMap(EncodeHead(5, |es|) + LongEntries(es)) == Some(es)
  {
    LongEntriesParse(es, |es|, |es| - 1);
    ParseEncodeHead(5, |es|, LongEntries(es));
  }

  lemma LongEntriesParse(es: seq<Entry>, n: nat, m: nat)
    requires es != [] && KeysAscend(es) && es[0] == Entry(0, UInt(1)) && n == |es| && m == n - 1
    requires forall i :: 0 <= i < |es| ==> Decodable(es[i].item)
    ensures ParseEntries(n, LongEntries(es)) == Some((es, []))
  {
    var tail := EncodeEntries(es[1..]);
    var afterKey := [0x18, 0x01] + tail;
    ParseEncodeHead(0, 0, afterKey);
    TwoByteOne(tail);
    ParseEncodeEntries(es[1..], []);
    assert tail + [] == tail && |es[1..]| == m;
    ParseEntriesStep(m, LongEntries(es), es[0], afterKey, tail, es[1..], []);
    assert [es[0]] + es[1..] == es;
  }

  lemma TwoByteOne(tail: Bytes)
    ensures ParseItem([0x18, 0x01] + tail) == Some((UInt(1), tail))
  {
    var b := [0x18, 0x01] + tail;
    assert b[1..2] == [1] && b[2..] == tail;
    assert BigEndianValue([1]) == 1 by { assert [1][..0] == []; }
  }

  // ----- revocations -----

  datatype Revoked = Revoked(
    target: Digest,
    revoker: PublicKey,
    role: Uint64,
    revokedAt: Uint64,
    reason: Bytes,
    signature: Bytes)

  const ROLE_PROPOSER: Uint64 := 1
  const ROLE_SUBJECT: Uint64 := 2

  const REVOKED_SCHEMA: seq<Kind> :=
    [UIntField, BytesField, BytesField, UIntField, UIntField, TextField, BytesField]

  function RevokedFields(p: Revoked): (fields: seq<Item>)
    ensures |fields| == 7
  {
    [UInt(PAYLOAD_VERSION), BStr(p.target), KeyItem(p.revoker), UInt(p.role), UInt(p.revokedAt),
     TStr(p.reason), BStr(p.signature)]
  }

  function EncodeRevoked(p: Revoked): Bytes {
    EncodeMap(Keyed(RevokedFields(p)))
  }

  predicate RevokedInBounds(p: Revoked) {
    && p.revoker != [] && (p.role == ROLE_PROPOSER || p.role == ROLE_SUBJECT)
    && |p.reason| <= MAX_REASON_LENGTH && ValidSignatureLength(p.signature)
  }

  function RevokedFromWire(c: Crypto, w: seq<Item>): (r: Result<Revoked>)
    requires Fits(w, REVOKED_SCHEMA)
  {
    if w[0].n != PAYLOAD_VERSION then Err(UnsupportedVersion)
    else if BytesLength(w[1]) != 32 then Err(SchemaViolation)
    else
      var revoker :- DecodePublicKey(c, w[2]);
      var signature := if w[6].BStr? then w[6].bytes else [];
      var p := Revoked(w[1].bytes, revoker, w[3].n, w[4].n, w[5].text, signature);
      if RevokedInBounds(p) then Ok(p) else Err(FieldOutOfBounds)
  }

  function DecodeRevoked(c: Crypto, encoded: Bytes): (r: Result<Revoked>) {
    match Unmarshal(encoded, REVOKED_SCHEMA)
    case None => Err(MalformedCbor)
    case Some(w) => RevokedFromWire(c, w)
  }

  function RevocationFields(p: Revoked): (fields: seq<Item>)
    ensures |fields| == 6
  {
    [UInt(PAYLOAD_VERSION), BStr(p.target), KeyItem(p.revoker), UInt(p.role), UInt(p.revokedAt), TStr(p.reason)]
  }

  function RevocationDigest(c: Crypto, p: Revoked): Digest {
    DomainDigest(c.hash, REVOCATION_DOMAIN, EncodeMap(Keyed(RevocationFields(p))))
  }

  predicate VerifyRevoked(c: Crypto, p: Revoked) {
    && p.revoker != [] && (p.role == ROLE_PROPOSER || p.role == ROLE_SUBJECT)
    && |p.reason| <= MAX_REASON_LENGTH
    && ValidSignatureLength(p.signature)
    && c.verify(p.revoker, RevocationDigest(c, p), p.signature)
  }

  predicate RevokedReadable(c: Crypto, p: Revoked) {
    IsP256(c, p.revoker) && ValidUtf8(p.reason)
  }

  lemma RevokedFieldsFit(p: Revoked)
    requires RevokedInBounds(p)
    ensures Fits(RevokedFields(p), REVOKED_SCHEMA)
    ensures forall i :: 0 <= i < 7 ==> Sized(RevokedFields(p)[i])
    ensures AllDecodable(RevokedFields(p)) <==> ValidUtf8(p.reason)
  {
    assert RevokedFields(p)[5] == TStr(p.reason);
  }

  lemma RevokedFromFields(c: Crypto, p: Revoked)
    requires RevokedInBounds(p) && Fits(RevokedFields(p), REVOKED_SCHEMA)
    ensures RevokedFromWire(c, RevokedFields(p)) == if IsP256(c, p.revoker) then Ok(p) else Err(InvalidPublicKey)
  {
  }

  lemma RevokedRoundTrip(c: Crypto, p: Revoked)
    requires RevokedInBounds(p)
    ensures if RevokedReadable(c, p) then DecodeRevoked(c, EncodeRevoked(p)) == Ok(p)
            else DecodeRevoked(c, EncodeRevoked(p)).Err?
  {
    RevokedFieldsFit(p);
    UnmarshalEncoded(RevokedFields(p), REVOKED_SCHEMA);
    RevokedFromFields(c, p);
  }

  lemma RevokedWireExact(c: Crypto, w: seq<Item>, p: Revoked)
    requires Fits(w, REVOKED_SCHEMA) && RevokedFromWire(c, w) == Ok(p)
    ensures w == RevokedFields(p) && RevokedInBounds(p)
  {
    assert OfKind(w[0], UIntField) && OfKind(w[3], UIntField) && OfKind(w[4], UIntField) && OfKind(w[5], TextField);
    assert OfKind(w[1], BytesField) && OfKind(w[6], BytesField);
  }

  lemma DecodeRevokedExact(c: Crypto, encoded: Bytes, p: Revoked)
    ensures DecodeRevoked(c, encoded) == Ok(p) <==>
            && Unmarshal(encoded, REVOKED_SCHEMA) == Some(RevokedFields(p))
            && |p.revoker| == 65 && p.revoker[0] == 0x04 && c.onCurve(p.revoker)
            && 1 <= p.role <= 2 && |p.reason| <= 256 && 8 <= |p.signature| <= 72
  {
    if DecodeRevoked(c, encoded) == Ok(p) {
      RevokedWireExact(c, Unmarshal(encoded, REVOKED_SCHEMA).value, p);
    }
    if Unmarshal(encoded, REVOKED_SCHEMA) == Some(RevokedFields(p)) && RevokedInBounds(p) {
      RevokedFieldsFit(p);
      RevokedFromFields(c, p);
    }
  }

  /** The revocation decoder is as lenient. */
  lemma RevokedReencodes(c: Crypto, encoded: Bytes, p: Revoked)
    requires DecodeRevoked(c, encoded) == Ok(p)
    ensures EncodeRevoked(p) == encoded <==> DecodeCanonical(encoded, |encoded|, REVOKED_SCHEMA).Ok?
  {
    var w := Unmarshal(encoded, REVOKED_SCHEMA).value;
    RevokedWireExact(c, w, p);
    UnmarshalReencodes(encoded, REVOKED_SCHEMA, w);
  }

  lemma RevokedNotUnique(c: Crypto, p: Revoked)
    requires RevokedInBounds(p) && RevokedReadable(c, p)
    ensures LongForm(RevokedFields(p)) != EncodeRevoked(p) && DecodeRevoked(c, LongForm(RevokedFields(p))) == Ok(p)
  {
    RevokedFieldsFit(p);
    LongFormDecodes(RevokedFields(p), REVOKED_SCHEMA);
    RevokedFromFields(c, p);
  }

  // ----- on the wire -----

  /** The payloads byte by byte, after their map heads; keys are as `encodePublicKey` writes them. */
  function AcceptedParts(p: Accepted): seq<Bytes> {
    [[0x00] + [0x01],
     [0x01] + (EncodeHead(2, |p.proposer|) + p.proposer),
     [0x02] + (EncodeHead(2, |p.subject|) + p.subject),
     [0x03] + (EncodeHead(3, |p.topic|) + p.topic),
     [0x04] + (EncodeHead(2, |p.claim|) + p.claim),
     [0x05] + EncodeHead(0, p.proposedAt),
     [0x06] + (EncodeHead(2, |p.proposerSignature|) + p.proposerSignature),
     [0x07] + EncodeHead(0, p.acceptedAt),
     [0x08] + (EncodeHead(2, |p.subjectSignature|) + p.subjectSignature)]
  }

  lemma AcceptedLayout(p: Accepted)
    requires p.proposer != [] && p.subject != []
    ensures EncodeAccepted(p) == [0xA9] + Concat(AcceptedParts(p))
  {
    var f, parts := AcceptedFields(p), AcceptedParts(p);
    assert PartAt(parts[0], 0, f[0]) by { HeadForms(0, 1); }
    assert PartAt(parts[1], 1, f[1]) && PartAt(parts[2], 2, f[2]);
    assert PartAt(parts[3], 3, f[3]) && PartAt(parts[4], 4, f[4]) && PartAt(parts[5], 5, f[5]);
    assert PartAt(parts[6], 6, f[6]) && PartAt(parts[7], 7, f[7]) && PartAt(parts[8], 8, f[8]);
    PartByPart(parts, f);
    StructLayout(f, parts);
  }

  function RevokedParts(p: Revoked): seq<Bytes> {
    [[0x00] + [0x01],
     [0x01] + ([0x58, 0x20] + p.target),
     [0x02] + (EncodeHead(2, |p.revoker|) + p.revoker),
     [0x03] + EncodeHead(0, p.role),
     [0x04] + EncodeHead(0, p.revokedAt),
     [0x05] + (EncodeHead(3, |p.reason|) + p.reason),
     [0x06] + (EncodeHead(2, |p.signature|) + p.signature)]
  }

  lemma RevokedLayout(p: Revoked)
    requires p.revoker != []
    ensures EncodeRevoked(p) == [0xA7] + Concat(RevokedParts(p))
  {
    assert PartAt(RevokedParts(p)[0], 0, RevokedFields(p)[0]) by { HeadForms(0, 1); }
    assert PartAt(RevokedParts(p)[1], 1, RevokedFields(p)[1]) by { DigestPart(1, p.target); }
    PartByPart(RevokedParts(p), RevokedFields(p));
    StructLayout(RevokedFields(p), RevokedParts(p));
  }

  /** What the proposer, the subject and the revoker sign, byte by byte after the map heads. */
  function ProposalParts(p: Accepted): seq<Bytes> {
    [[0x00] + [0x01],
     [0x01] + (EncodeHead(2, |p.proposer|) + p.proposer),
     [0x02] + (EncodeHead(2, |p.subject|) + p.subject),
     [0x03] + (EncodeHead(3, |p.topic|) + p.topic),
     [0x04] + (EncodeHead(2, |p.claim|) + p.claim),
     [0x05] + EncodeHead(0, p.proposedAt)]
  }

  lemma ProposalLayout(c: Crypto, p: Accepted)
    requires p.proposer != [] && p.subject != []
    ensures ProposalDigest(c, p) ==
            c.hash(Ascii("attribution-chain:endorsement-proposal:v1") + [0] + ([0xA6] + Concat(ProposalParts(p))))
  {
    var f, parts := ProposalFields(p), ProposalParts(p);
    assert PartAt(parts[0], 0, f[0]) by { HeadForms(0, 1); }
    assert PartAt(parts[1], 1, f[1]) && PartAt(parts[2], 2, f[2]);
    assert PartAt(parts[3], 3, f[3]) && PartAt(parts[4], 4, f[4]) && PartAt(parts[5], 5, f[5]);
    PartByPart(parts, f);
    StructLayout(f, parts);
  }

  function AcceptanceParts(proposal: Digest, acceptedAt: Uint64): seq<Bytes> {
    [[0x00] + [0x01], [0x01] + ([0x58, 0x20] + proposal), [0x02] + EncodeHead(0, acceptedAt)]
  }

  lemma AcceptanceLayout(c: Crypto, p: Accepted)
    ensures AcceptanceDigest(c, p) ==
            c.hash(Ascii("attribution-chain:endorsement-acceptance:v1") + [0] +
                   ([0xA3] + Concat(AcceptanceParts(ProposalDigest(c, p), p.acceptedAt))))
  {
    AcceptanceParted(ProposalDigest(c, p), p.acceptedAt);
  }

  lemma AcceptanceParted(proposal: Digest, acceptedAt: Uint64)
    ensures EncodeMap(Keyed(AcceptanceFields(proposal, acceptedAt))) == [0xA3] + Concat(AcceptanceParts(proposal, acceptedAt))
  {
    var f, parts := AcceptanceFields(proposal, acceptedAt), AcceptanceParts(proposal, acceptedAt);
    assert PartAt(parts[0], 0, f[0]) by { HeadForms(0, 1); }
    assert PartAt(parts[1], 1, f[1]) by { DigestPart(1, proposal); }
    PartByPart(parts, f);
    StructLayout(f, parts);
  }

  function RevocationParts(p: Revoked): seq<Bytes> {
    [[0x00] + [0x01],
     [0x01] + ([0x58, 0x20] + p.target),
     [0x02] + (EncodeHead(2, |p.revoker|) + p.revoker),
     [0x03] + EncodeHead(0, p.role),
     [0x04] + EncodeHead(0, p.revokedAt),
     [0x05] + (EncodeHead(3, |p.reason|) + p.reason)]
  }

  lemma RevocationLayout(c: Crypto, p: Revoked)
    requires p.revoker != []
    ensures RevocationDigest(c, p) ==
            c.hash(Ascii("attribution-chain:endorsement-revocation:v1") + [0] + ([0xA6] + Concat(RevocationParts(p))))
  {
    var f, parts := RevocationFields(p), RevocationParts(p);
    assert PartAt(parts[0], 0, f[0]) by { HeadForms(0, 1); }
    assert PartAt(parts[1], 1, f[1]) by { DigestPart(1, p.target); }
    assert PartAt(parts[2], 2, f[2]) && PartAt(parts[3], 3, f[3]) && PartAt(parts[4], 4, f[4]) && PartAt(parts[5], 5, f[5]);
    PartByPart(parts, f);
    StructLayout(f, parts);
  }

  // ----- what a signature covers -----

  /** The bytes that are hashed and signed. */
  function Statement(domain: Bytes, fields: seq<Item>): Bytes
    requires |fields| <= MAX_MAP_PAIRS
  {
    Preimage(domain, EncodeMap(Keyed(fields)))
  }

  function ProposalStatement(p: Accepted): Bytes {
    Statement(PROPOSAL_DOMAIN, ProposalFields(p))
  }

  function AcceptanceStatement(c: Crypto, p: Accepted): Bytes {
    Statement(ACCEPTANCE_DOMAIN, AcceptanceFields(ProposalDigest(c, p), p.acceptedAt))
  }

  function RevocationStatement(p: Revoked): Bytes {
    Statement(REVOCATION_DOMAIN, RevocationFields(p))
  }

  /** One digest stands for one statement, of one domain, or these two statements collide. */
  lemma StatementCommits(h: Hash, domain: Bytes, f: seq<Item>, domain': Bytes, g: seq<Item>)
    requires ZeroFree(domain) && ZeroFree(domain') && |f| <= MAX_MAP_PAIRS && |g| <= MAX_MAP_PAIRS
    requires (forall i :: 0 <= i < |f| ==> Sized(f[i])) && (forall i :: 0 <= i < |g| ==> Sized(g[i]))
    requires h(Statement(domain, f)) == h(Statement(domain', g))
    ensures (domain == domain' && f == g) || Collision(h, Statement(domain, f), Statement(domain', g))
  {
    if Statement(domain, f) == Statement(domain', g) {
      PreimageDetermines(domain, EncodeMap(Keyed(f)), domain', EncodeMap(Keyed(g)));
      EncodingInjective(f, g);
    }
  }

  /** The proposer's signature covers both parties, topic, claim and time. */
  lemma ProposalCommits(c: Crypto, p: Accepted, q: Accepted)
    requires AcceptedInBounds(p) && AcceptedInBounds(q) && ProposalDigest(c, p) == ProposalDigest(c, q)
    ensures Collision(c.hash, ProposalStatement(p), ProposalStatement(q)) ||
            (p.proposer == q.proposer && p.subject == q.subject && p.topic == q.topic && p.claim == q.claim &&
             p.proposedAt == q.proposedAt)
  {
    StatementCommits(c.hash, PROPOSAL_DOMAIN, ProposalFields(p), PROPOSAL_DOMAIN, ProposalFields(q));
    if ProposalFields(p) == ProposalFields(q) { ProposalFieldsDetermine(p, q); }
  }

  lemma ProposalFieldsDetermine(p: Accepted, q: Accepted)
    requires ProposalFields(p) == ProposalFields(q)
    ensures p.proposer == q.proposer && p.subject == q.subject && p.topic == q.topic && p.claim == q.claim
    ensures p.proposedAt == q.proposedAt
  {
    var f, g := ProposalFields(p), ProposalFields(q);
    assert f[1] == g[1] && f[2] == g[2] && f[3] == g[3] && f[4] == g[4] && f[5] == g[5];
  }

  /** The subject's signature covers everything but the two signatures. */
  lemma AcceptanceCommits(c: Crypto, p: Accepted, q: Accepted)
    requires AcceptedInBounds(p) && AcceptedInBounds(q) && AcceptanceDigest(c, p) == AcceptanceDigest(c, q)
    ensures || Collision(c.hash, AcceptanceStatement(c, p), AcceptanceStatement(c, q))
            || Collision(c.hash, ProposalStatement(p), ProposalStatement(q))
            || p == q.(proposerSignature := p.proposerSignature, subjectSignature := p.subjectSignature)
  {
    var f, g := AcceptanceFields(ProposalDigest(c, p), p.acceptedAt), AcceptanceFields(ProposalDigest(c, q), q.acceptedAt);
    StatementCommits(c.hash, ACCEPTANCE_DOMAIN, f, ACCEPTANCE_DOMAIN, g);
    if f == g {
      assert f[1] == g[1] && f[2] == g[2];
      ProposalCommits(c, p, q);
    }
  }

  /** The revoker's signature covers everything but itself. */
  lemma RevocationCommits(c: Crypto, p: Revoked, q: Revoked)
    requires RevokedInBounds(p) && RevokedInBounds(q) && RevocationDigest(c, p) == RevocationDigest(c, q)
    ensures Collision(c.hash, RevocationStatement(p), RevocationStatement(q)) || p == q.(signature := p.signature)
  {
    var f, g := RevocationFields(p), RevocationFields(q);
    StatementCommits(c.hash, REVOCATION_DOMAIN, f, REVOCATION_DOMAIN, g);
    if f == g {
      assert f[1] == g[1] && f[2] == g[2] && f[3] == g[3] && f[4] == g[4] && f[5] == g[5];
    }
  }

  lemma DomainsDiffer()
    ensures PROPOSAL_DOMAIN != ACCEPTANCE_DOMAIN && PROPOSAL_DOMAIN != REVOCATION_DOMAIN && ACCEPTANCE_DOMAIN != REVOCATION_DOMAIN
  {
    assert |PROPOSAL_DOMAIN| == 41 && ACCEPTANCE_DOMAIN[30] == 'a' as int && REVOCATION_DOMAIN[30] == 'r' as int;
  }

  /** Statements of two domains share a digest only by colliding. */
  lemma StatementsSeparate(h: Hash, domain: Bytes, f: seq<Item>, domain': Bytes, g: seq<Item>)
    requires ZeroFree(domain) && ZeroFree(domain') && domain != domain' && |f| <= MAX_MAP_PAIRS && |g| <= MAX_MAP_PAIRS
    ensures h(Statement(domain, f)) == h(Statement(domain', g)) ==> Collision(h, Statement(domain, f), Statement(domain', g))
  {
    if Statement(domain, f) == Statement(domain', g) {
      PreimageDetermines(domain, EncodeMap(Keyed(f)), domain', EncodeMap(Keyed(g)));
    }
  }

  /** A signature on one kind of statement passes for another only through a collision. */
  lemma SignaturesSeparate(c: Crypto, p: Accepted, q: Accepted, r: Revoked)
    ensures ProposalDigest(c, p) == AcceptanceDigest(c, q) ==> Collision(c.hash, ProposalStatement(p), AcceptanceStatement(c, q))
    ensures ProposalDigest(c, p) == RevocationDigest(c, r) ==> Collision(c.hash, ProposalStatement(p), RevocationStatement(r))
    ensures AcceptanceDigest(c, q) == RevocationDigest(c, r) ==> Collision(c.hash, AcceptanceStatement(c, q), RevocationStatement(r))
  {
    DomainsDiffer();
    var acceptance := AcceptanceFields(ProposalDigest(c, q), q.acceptedAt);
    StatementsSeparate(c.hash, PROPOSAL_DOMAIN, ProposalFields(p), ACCEPTANCE_DOMAIN, acceptance);
    StatementsSeparate(c.hash, PROPOSAL_DOMAIN, ProposalFields(p), REVOCATION_DOMAIN, RevocationFields(r));
    StatementsSeparate(c.hash, ACCEPTANCE_DOMAIN, acceptance, REVOCATION_DOMAIN, RevocationFields(r));
  }

  // ----- sizes -----

  /** A payload that passed `Verify` always fits an event. */
  lemma AcceptedPayloadFits(p: Accepted)
    requires AcceptedInBounds(p)
    ensures 1 <= |EncodeAccepted(p)| <= MAX_PAYLOAD_BYTES
  {
    AcceptedSize(AcceptedFields(p));
  }

  lemma RevokedPayloadFits(p: Revoked)
    requires RevokedInBounds(p)
    ensures 1 <= |EncodeRevoked(p)| <= MAX_PAYLOAD_BYTES
  {
    RevokedSize(RevokedFields(p));
  }

  lemma AcceptedSize(f: seq<Item>)
    requires |f| == 9 && forall i :: 0 <= i < 9 ==> ItemSize(f[i]) <= 4200
    ensures 1 <= |EncodeMap(Keyed(f))| <= MAX_PAYLOAD_BYTES
  {
    EncodedSize(f);
    assert FieldsSize(f, 9) == 0;
    assert FieldsSize(f, 7) <= 8402;
    assert FieldsSize(f, 5) <= 16804;
    assert FieldsSize(f, 3) <= 25206;
    assert FieldsSize(f, 1) <= 33608;
  }

  lemma RevokedSize(f: seq<Item>)
    requires |f| == 7 && forall i :: 0 <= i < 7 ==> ItemSize(f[i]) <= 4200
    ensures 1 <= |EncodeMap(Keyed(f))| <= MAX_PAYLOAD_BYTES
  {
    EncodedSize(f);
    assert FieldsSize(f, 7) == 0;
    assert FieldsSize(f, 5) <= 8402;
    assert FieldsSize(f, 3) <= 16804;
    assert FieldsSize(f, 1) <= 25206;
  }

  // ----- verified payloads -----

  /** The payload is the encoding of an endorsement or a revocation that verified. */
  ghost predicate Vouched(c: Crypto, kind: Uint64, payload: Bytes) {
    || (kind == ENDORSEMENT_ACCEPTED && exists p :: VerifyAccepted(c, p) && payload == EncodeAccepted(p))
    || (kind == ENDORSEMENT_REVOKED && exists p :: VerifyRevoked(c, p) && payload == EncodeRevoked(p))
  }

  lemma VouchedNotEmpty(c: Crypto, kind: Uint64, payload: Bytes)
    requires Vouched(c, kind, payload)
    ensures 1 <= |payload| <= MAX_PAYLOAD_BYTES
  {
    if kind == ENDORSEMENT_ACCEPTED {
      var p :| VerifyAccepted(c, p) && payload == EncodeAccepted(p);
      AcceptedPayloadFits(p);
    } else {
      var p :| VerifyRevoked(c, p) && payload == EncodeRevoked(p);
      RevokedPayloadFits(p);
    }
  }
}
